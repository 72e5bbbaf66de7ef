/**
 Paths and listings: resolve_parent_dir(), resolve_directory() and fat16_list_dir() of
 kernel/src/fat16.c, and why a printed line opens the entry it was printed from.
 */
module FatListing {
  import opened Common
  import opened FatChains
  import opened FatNames
  import opened FatVolume
  import FatWrite
  import opened FatDriver

  const NEWLINE: byte := 10

  /** resolve_directory() from directory d on. A path that starts with a slash stops at once. */
  function ResolveDirectory(v: Volume, p: CString, d: nat): Option<nat>
    requires Sane(v)
    decreases |p|
  {
    var k := ComponentLength(p);
    var rest := SkipSlashes(p[k..]);
    if k == 0 then Some(d)
    else
      var sub := Subdirectory(v, d, p[..k]);
      if sub.None? || rest == [] then sub else ResolveDirectory(v, rest, sub.value)
  }

  /** The path of `leaf` in the directory that `path` names. */
  function Join(path: CString, leaf: CString): CString {
    if path == [] then leaf else path + [SLASH] + leaf
  }

  /** A component short enough not to be cut, with no slash in it. */
  predicate IsLeaf(leaf: CString) {
    leaf != [] && |leaf| <= 12 && SLASH !in leaf
  }

  lemma {:induction false} IndexOfJoined(p: CString, leaf: CString)
    ensures IndexOf(p + [SLASH] + leaf, SLASH) == IndexOf(p, SLASH)
  {
    var q := p + [SLASH] + leaf;
    var k := IndexOf(p, SLASH);
    assert q[k] == SLASH;
    assert forall i | 0 <= i < k :: q[i] == p[i];
    IndexIs(q, SLASH, k);
  }

  lemma {:induction false} SkipJoined(p: CString, leaf: CString)
    requires IsLeaf(leaf)
    ensures SkipSlashes(p + [SLASH] + leaf)
            == if SkipSlashes(p) == [] then leaf else SkipSlashes(p) + [SLASH] + leaf
  {
    var q := p + [SLASH] + leaf;
    if p == [] {
      assert q == [SLASH] + leaf && q[1..] == leaf;
      assert leaf[0] in leaf;
    } else if p[0] == SLASH {
      assert q[1..] == p[1..] + [SLASH] + leaf;
      SkipJoined(p[1..], leaf);
    }
  }

  lemma LeafResolves(v: Volume, leaf: CString, d: nat)
    requires Sane(v) && IsLeaf(leaf)
    ensures ResolveParent(v, leaf, d) == Some((d, leaf))
  {
    IndexIs(leaf, SLASH, |leaf|);
    assert leaf[|leaf|..] == [] && leaf[..|leaf|] == leaf;
  }

  /** A joined path has the same first component, and the rest joined after it. */
  lemma JoinedStep(p: CString, leaf: CString)
    requires IsLeaf(leaf)
    ensures var q: CString, k := p + [SLASH] + leaf, ComponentLength(p);
            && ComponentLength(q) == k && q[..k] == p[..k]
            && SkipSlashes(q[k..])
               == if SkipSlashes(p[k..]) == [] then leaf else SkipSlashes(p[k..]) + [SLASH] + leaf
  {
    var q: CString, k := p + [SLASH] + leaf, ComponentLength(p);
    IndexOfJoined(p, leaf);
    assert q[k..] == p[k..] + [SLASH] + leaf;
    SkipJoined(p[k..], leaf);
  }

  /** Where a joined path leads is where its directory part leads, with the leaf left over. */
  lemma {:induction false} JoinedResolves(v: Volume, p: CString, leaf: CString, d: nat)
    requires Sane(v) && IsLeaf(leaf) && p != [] && p[0] != SLASH
    ensures ResolveParent(v, p + [SLASH] + leaf, d)
            == match ResolveDirectory(v, p, d)
               case None => None
               case Some(x) => Some((x, leaf))
    decreases |p|
  {
    JoinedStep(p, leaf);
    var rest := SkipSlashes(p[ComponentLength(p)..]);
    var sub := Subdirectory(v, d, p[..ComponentLength(p)]);
    if sub.Some? {
      if rest == [] {
        LeafResolves(v, leaf, sub.value);
      } else {
        JoinedResolves(v, rest, leaf, sub.value);
      }
    }
  }

  // ---------------------------------------------------------------- paths as lists of names

  /** The names with a slash, byte 47, between each two. */
  function Joined(cs: seq<CString>): CString
    requires cs != []
  {
    if |cs| == 1 then cs[0] else cs[0] + [47] + Joined(cs[1..])
  }

  /** Where following the names from directory d one after another leads. */
  function Descend(v: Volume, cs: seq<CString>, d: nat): Option<nat>
    requires Sane(v)
  {
    if cs == [] then Some(d)
    else match Subdirectory(v, d, cs[0])
      case None => None
      case Some(x) => Descend(v, cs[1..], x)
  }

  predicate AreNames(cs: seq<CString>) {
    forall i | 0 <= i < |cs| :: cs[i] != [] && |cs[i]| <= 12 && 47 !in cs[i]
  }

  lemma FrontName(c: CString, rest: CString)
    requires |c| <= 12 && 47 !in c && rest != [] && rest[0] != SLASH
    ensures var p: CString := c + [47] + rest;
            ComponentLength(p) == |c| && p[..|c|] == c && SkipSlashes(p[|c|..]) == rest
  {
    var p: CString := c + [47] + rest;
    assert p[|c|] == SLASH && forall i | 0 <= i < |c| :: p[i] == c[i];
    IndexIs(p, SLASH, |c|);
    assert p[|c|..] == [SLASH] + rest && p[|c|..][1..] == rest;
  }

  lemma OnlyName(c: CString)
    requires |c| <= 12 && 47 !in c
    ensures ComponentLength(c) == |c| && c[..|c|] == c && SkipSlashes(c[|c|..]) == []
  {
    IndexIs(c, SLASH, |c|);
    assert c[|c|..] == [];
  }

  lemma JoinedStarts(cs: seq<CString>)
    requires AreNames(cs) && cs != []
    ensures Joined(cs) != [] && Joined(cs)[0] != SLASH
  {
    assert cs[0][0] in cs[0] && Joined(cs)[0] == cs[0][0];
  }

  lemma JoinedFirst(cs: seq<CString>)
    requires AreNames(cs) && cs != []
    ensures var p := Joined(cs);
            && ComponentLength(p) == |cs[0]| && p[..|cs[0]|] == cs[0]
            && SkipSlashes(p[|cs[0]|..]) == if |cs| == 1 then [] else Joined(cs[1..])
  {
    if |cs| > 1 {
      JoinedStarts(cs[1..]);
      FrontName(cs[0], Joined(cs[1..]));
    } else {
      OnlyName(cs[0]);
    }
  }

  /** One name of a path with more behind it. */
  lemma PathStep(v: Volume, cs: seq<CString>, d: nat)
    requires Sane(v) && AreNames(cs) && |cs| > 1
    ensures var sub := Subdirectory(v, d, cs[0]); var rest := Joined(cs[1..]);
            && rest != []
            && ResolveParent(v, Joined(cs), d) == (if sub.None? then None else ResolveParent(v, rest, sub.value))
            && ResolveDirectory(v, Joined(cs), d) == (if sub.None? then None else ResolveDirectory(v, rest, sub.value))
  {
    JoinedFirst(cs);
    JoinedStarts(cs[1..]);
    assert cs[0] != [];
  }

  lemma DescendFirst(v: Volume, cs: seq<CString>, d: nat)
    requires Sane(v) && cs != []
    ensures Descend(v, cs, d)
            == (var sub := Subdirectory(v, d, cs[0]); if sub.None? then None else Descend(v, cs[1..], sub.value))
  {
  }

  lemma {:induction false} DirectoryPath(v: Volume, cs: seq<CString>, d: nat)
    requires Sane(v) && AreNames(cs) && cs != []
    ensures ResolveDirectory(v, Joined(cs), d) == Descend(v, cs, d)
    decreases |cs|
  {
    DescendFirst(v, cs, d);
    if |cs| > 1 {
      PathStep(v, cs, d);
      var sub := Subdirectory(v, d, cs[0]);
      if sub.Some? { DirectoryPath(v, cs[1..], sub.value); }
    } else {
      JoinedFirst(cs);
      assert cs[1..] == [];
    }
  }

  /** Where the names before the last lead, with the last. */
  function Destination(v: Volume, cs: seq<CString>, d: nat): Option<(nat, CString)>
    requires Sane(v) && cs != []
  {
    match Descend(v, cs[..|cs| - 1], d)
    case None => None
    case Some(x) => Some((x, cs[|cs| - 1]))
  }

  lemma DestinationFirst(v: Volume, cs: seq<CString>, d: nat)
    requires Sane(v) && |cs| > 1
    ensures Destination(v, cs, d)
            == (var sub := Subdirectory(v, d, cs[0]); if sub.None? then None else Destination(v, cs[1..], sub.value))
  {
    var front, rest := cs[..|cs| - 1], cs[1..];
    DescendFirst(v, front, d);
    assert front[1..] == rest[..|rest| - 1] && front[0] == cs[0];
  }

  /**
   A path means the list of its names: all but the last are followed as directories, and the last is looked up where
   they lead; as the path of a directory, all are followed.
   */
  lemma {:induction false} PathMeans(v: Volume, cs: seq<CString>, d: nat)
    requires Sane(v) && AreNames(cs) && cs != []
    ensures ResolveParent(v, Joined(cs), d) == Destination(v, cs, d)
    ensures ResolveDirectory(v, Joined(cs), d) == Descend(v, cs, d)
    decreases |cs|
  {
    DirectoryPath(v, cs, d);
    if |cs| > 1 {
      PathStep(v, cs, d);
      DestinationFirst(v, cs, d);
      var sub := Subdirectory(v, d, cs[0]);
      if sub.Some? { PathMeans(v, cs[1..], sub.value); }
    } else {
      JoinedFirst(cs);
      assert cs[..0] == [];
    }
  }

  /** Of a longer name the first 12 characters are followed as a directory, and the rest is taken for the next name. */
  lemma LongNameIsCut(v: Volume, p: CString, d: nat)
    requires Sane(v) && |p| > 12 && 47 !in p[..13]
    ensures ResolveParent(v, p, d)
            == match Subdirectory(v, d, p[..12])
               case None => None
               case Some(x) => ResolveParent(v, p[12..], x)
  {
    var front := p[..13];
    assert forall i | 0 <= i < 13 :: p[i] == front[i] && front[i] != SLASH;
  }

  // ---------------------------------------------------------------- listings

  function Line(e: Dirent): seq<byte> { Render(e.name) + [NEWLINE] }

  /** What fat16_list_dir() appends from entry i on, when `written` bytes are in the buffer already. */
  function Listing(dir: seq<Dirent>, i: nat, written: nat, max: nat): seq<byte>
    requires i <= |dir|
    decreases |dir| - i
  {
    if i == |dir| || IsEnd(dir[i]) then []
    else if Skipped(dir[i]) then Listing(dir, i + 1, written, max)
    else if written + |Line(dir[i])| >= max then []
    else Line(dir[i]) + Listing(dir, i + 1, written + |Line(dir[i])|, max)
  }

  /** The entries a scan from i on reaches and does not skip, in order. */
  function LiveFrom(dir: seq<Dirent>, i: nat): seq<nat>
    requires i <= |dir|
    decreases |dir| - i
  {
    if i == |dir| || IsEnd(dir[i]) then []
    else (if Skipped(dir[i]) then [] else [i]) + LiveFrom(dir, i + 1)
  }

  /** One line per entry of `es`. */
  function Lines(dir: seq<Dirent>, es: seq<nat>): seq<byte>
    requires forall k | 0 <= k < |es| :: es[k] < |dir|
  {
    if es == [] then [] else Line(dir[es[0]]) + Lines(dir, es[1..])
  }

  lemma {:induction false} LiveFromIs(dir: seq<Dirent>, i: nat, e: nat)
    requires i <= |dir| && forall j | 0 <= j < i :: !IsEnd(dir[j])
    ensures e in LiveFrom(dir, i) <==> i <= e && Live(dir, e)
    decreases |dir| - i
  {
    if i < |dir| && !IsEnd(dir[i]) {
      LiveFromIs(dir, i + 1, e);
    }
  }

  lemma {:induction false} LiveInRange(dir: seq<Dirent>, i: nat)
    requires i <= |dir|
    ensures forall k | 0 <= k < |LiveFrom(dir, i)| :: i <= LiveFrom(dir, i)[k] < |dir|
    decreases |dir| - i
  {
    if i < |dir| && !IsEnd(dir[i]) {
      LiveInRange(dir, i + 1);
    }
  }

  /** es are the first n live entries from i on, and the next one's line would not have fitted. */
  ghost predicate Maximal(dir: seq<Dirent>, i: nat, written: nat, max: nat, n: nat)
    requires i <= |dir|
  {
    LiveInRange(dir, i);
    var es := LiveFrom(dir, i);
    && n <= |es|
    && Listing(dir, i, written, max) == Lines(dir, es[..n])
    && (n > 0 ==> written + |Listing(dir, i, written, max)| < max)
    && (n < |es| ==> written + |Listing(dir, i, written, max)| + |Line(dir[es[n]])| >= max)
  }

  /**
   A listing is one whole line per live entry, in directory order, as many as fit before
   the buffer's last byte: a maximal prefix of the full listing.
   */
  lemma {:induction false} ListingIsMaximal(dir: seq<Dirent>, i: nat, written: nat, max: nat) returns (n: nat)
    requires i <= |dir|
    ensures Maximal(dir, i, written, max, n)
    decreases |dir| - i
  {
    n := 0;
    LiveInRange(dir, i);
    assert LiveFrom(dir, i)[..0] == [];
    if i < |dir| && !IsEnd(dir[i]) {
      if Skipped(dir[i]) {
        n := ListingIsMaximal(dir, i + 1, written, max);
        assert LiveFrom(dir, i) == LiveFrom(dir, i + 1);
      } else if written + |Line(dir[i])| < max {
        var m := ListingIsMaximal(dir, i + 1, written + |Line(dir[i])|, max);
        n := m + 1;
        OneMoreLine(dir, i, written, max, m);
      }
    }
  }

  lemma OneMoreLine(dir: seq<Dirent>, i: nat, written: nat, max: nat, m: nat)
    requires i < |dir| && !IsEnd(dir[i]) && !Skipped(dir[i]) && written + |Line(dir[i])| < max
    requires Maximal(dir, i + 1, written + |Line(dir[i])|, max, m)
    ensures Maximal(dir, i, written, max, m + 1)
  {
    LiveInRange(dir, i);
    LiveInRange(dir, i + 1);
    var es, rest := LiveFrom(dir, i), LiveFrom(dir, i + 1);
    assert es == [i] + rest;
    assert es[..m + 1][1..] == rest[..m] && es[..m + 1][0] == i;
    assert Lines(dir, es[..m + 1]) == Line(dir[i]) + Lines(dir, rest[..m]);
    assert m < |rest| ==> es[m + 1] == rest[m];
  }

  // ---------------------------------------------------------------- a printed line opens its entry

  /** No live entry before e has the same name. */
  ghost predicate FirstOfName(dir: seq<Dirent>, e: nat)
    requires e < |dir|
  {
    forall j | 0 <= j < e && Live(dir, j) :: dir[j].name != dir[e].name
  }

  lemma {:induction false} FindsItself(dir: seq<Dirent>, e: nat, i: nat)
    requires Live(dir, e) && i <= e && forall j | 0 <= j < i && Live(dir, j) :: dir[j].name != dir[e].name
    ensures Find(dir, dir[e].name, i) == e <==> FirstOfName(dir, e)
    decreases e - i
  {
    if i < e {
      assert Live(dir, i) <==> !Skipped(dir[i]);
      if !Skipped(dir[i]) && dir[i].name == dir[e].name {
        assert Find(dir, dir[e].name, i) == i;
      } else {
        FindsItself(dir, e, i + 1);
      }
    }
  }

  /** fat16_open() of this path picks entry e of directory d. */
  ghost predicate Picks(v: Volume, path: CString, d: nat, e: nat)
    requires Sane(v)
  {
    var r := ResolveParent(v, path, 0);
    r.Some? && r.value.0 == d && Find(Directory(v, d), Format83(r.value.1), 0) == e
  }

  /** The text a reader of a C string sees: everything before the first NUL. */
  function CText(text: seq<byte>): CString { text[..IndexOf(text, 0)] }

  /** A printed name as a C string. */
  function Printed(raw: Name83): CString { CText(Render(raw)) }

  /** A stored name of which nothing is printed. */
  predicate Blank(raw: Name83) { raw[0] == SPACE && raw[8] == SPACE }

  /** Neither a slash nor a NUL in the printed part of the name. */
  predicate Unbroken(raw: Name83) { SLASH !in Render(raw) && 0 !in Render(raw) }

  lemma RenderShape(raw: Name83)
    ensures |Render(raw)| <= 12 && (Render(raw) == [] <==> Blank(raw))
    ensures forall b | b in Render(raw) && b != DOT :: b in raw
  {
    var base, ext := Trim(raw[..8]), Trim(raw[8..]);
    assert raw[..8][0] == raw[0] && raw[8..][0] == raw[8];
    forall b | b in Render(raw) && b != DOT ensures b in raw {
      assert b in base || b in ext;
      assert b in base ==> b in raw[..8];
      assert b in ext ==> b in raw[8..];
    }
  }

  lemma UnbrokenIsLeaf(raw: Name83)
    requires Unbroken(raw) && !Blank(raw)
    ensures Printed(raw) == Render(raw) && IsLeaf(Printed(raw))
  {
    RenderShape(raw);
    IndexIs(Render(raw), 0, |Render(raw)|);
  }

  /** format_83() makes no slash, NUL or newline of its own. */
  lemma FormatAdds(c: seq<byte>, b: byte)
    requires b !in c && (b == SLASH || b == 0 || b == NEWLINE)
    ensures b !in Format83(c)
  {
    var base, ext := BasePart(c), ExtPart(c);
    forall i | 0 <= i < |base| ensures base[i] != b { assert base[i] == Upper(c[i]) && c[i] in c; }
    forall i | 0 <= i < |ext| ensures ext[i] != b {
      assert ext[i] == Upper(c[IndexOf(c, DOT) + 1 + i]) && c[IndexOf(c, DOT) + 1 + i] in c;
    }
    var raw := Format83(c);
    assert raw[..8] == Pad(base, 8) && raw[8..] == Pad(ext, 3);
    assert b !in raw[..8] && b !in raw[8..] && raw == raw[..8] + raw[8..];
  }

  lemma {:induction false} LastHasNoSlash(v: Volume, p: CString, d: nat)
    requires Sane(v) && ResolveParent(v, p, d).Some?
    ensures SLASH !in ResolveParent(v, p, d).value.1
    decreases |p|
  {
    var k := ComponentLength(p);
    var rest := SkipSlashes(p[k..]);
    if rest != [] { LastHasNoSlash(v, rest, Subdirectory(v, d, p[..k]).value); }
  }

  /** A name with a slash or a NUL in it is picked by no path at all. */
  lemma BrokenIsNeverPicked(v: Volume, path: CString, d: nat, e: nat)
    requires Sane(v) && e < |Directory(v, d)| && !Unbroken(Directory(v, d)[e].name)
    ensures !Picks(v, path, d, e)
  {
    RenderShape(Directory(v, d)[e].name);
    if ResolveParent(v, path, 0).Some? {
      LastHasNoSlash(v, path, 0);
      FormatAdds(ResolveParent(v, path, 0).value.1, SLASH);
      FormatAdds(ResolveParent(v, path, 0).value.1, 0);
    }
  }

  lemma {:induction false} SkipTrailing(p: CString)
    ensures SkipSlashes(p + [SLASH]) == if SkipSlashes(p) == [] then [] else SkipSlashes(p) + [SLASH]
  {
    var q: CString := p + [SLASH];
    if p == [] {
      assert q[1..] == [];
    } else if p[0] == SLASH {
      assert q[1..] == p[1..] + [SLASH];
      SkipTrailing(p[1..]);
    }
  }

  lemma TrailingComponent(p: CString)
    ensures IndexOf(p + [SLASH], SLASH) == IndexOf(p, SLASH)
  {
    IndexOfJoined(p, []);
    assert p + [SLASH] + [] == p + [SLASH];
  }

  lemma TrailingLength(p: CString)
    ensures ComponentLength(p + [SLASH]) == ComponentLength(p)
  {
    TrailingComponent(p);
  }

  lemma Appended(p: seq<byte>, b: byte, k: nat)
    requires k <= |p|
    ensures (p + [b])[..k] == p[..k] && (p + [b])[k..] == p[k..] + [b]
  {
  }

  lemma TrailingStep(p: CString)
    ensures var q: CString, k := p + [SLASH], ComponentLength(p);
            && ComponentLength(q) == k && q[..k] == p[..k]
            && SkipSlashes(q[k..]) == if SkipSlashes(p[k..]) == [] then [] else SkipSlashes(p[k..]) + [SLASH]
  {
    var k := ComponentLength(p);
    TrailingLength(p);
    Appended(p, SLASH, k);
    SkipTrailing(p[k..]);
  }

  /** A trailing slash makes no difference to fat16_open(). */
  lemma {:induction false} TrailingSlash(v: Volume, p: CString, d: nat)
    requires Sane(v) && p != [] && p[0] != SLASH
    ensures ResolveParent(v, p + [SLASH], d) == ResolveParent(v, p, d)
    decreases |p|
  {
    TrailingStep(p);
    var k := ComponentLength(p);
    var rest := SkipSlashes(p[k..]);
    if rest != [] && Subdirectory(v, d, p[..k]).Some? {
      TrailingSlash(v, rest, Subdirectory(v, d, p[..k]).value);
    }
  }

  /** The entry fat16_open() picks for a joined path. */
  lemma OpenJoined(v: Volume, path: CString, leaf: CString, d: nat)
    requires Sane(v) && IsLeaf(leaf) && (path != [] ==> path[0] != SLASH)
    requires ResolveDirectory(v, path, 0) == Some(d)
    ensures ResolveParent(v, Join(path, leaf), 0) == Some((d, leaf))
  {
    if path == [] {
      LeafResolves(v, leaf, 0);
    } else {
      JoinedResolves(v, path, leaf, 0);
    }
  }

  /** Joining nothing to a path makes no difference to fat16_open(). */
  lemma JoinNothing(v: Volume, path: CString)
    requires Sane(v) && (path != [] ==> path[0] != SLASH)
    ensures ResolveParent(v, Join(path, []), 0) == ResolveParent(v, path, 0)
  {
    if path != [] { TrailingSlash(v, path, 0); }
    assert path + [SLASH] + [] == path + [SLASH];
  }

  /**
   The name printed for live entry e of the directory `path` names, joined to that path as
   one string, picks entry e itself exactly when the stored name has no slash or NUL in it,
   is canonical, and is the first of its kind. A blank name is picked exactly when `path`
   alone picks it.
   */
  lemma NameOpensItsEntry(v: Volume, path: CString, d: nat, e: nat)
    requires Sane(v) && (path != [] ==> path[0] != SLASH) && ResolveDirectory(v, path, 0) == Some(d)
    requires Live(Directory(v, d), e)
    ensures var dir := Directory(v, d); var name := dir[e].name;
            Picks(v, Join(path, Printed(name)), d, e) <==>
              if Blank(name) then Picks(v, path, d, e)
              else Unbroken(name) && Canonical(name) && FirstOfName(dir, e)
    ensures var dir := Directory(v, d); var path' := Join(path, Printed(dir[e].name));
            Picks(v, path', d, e) ==> Open(v, path') == Some(File(dir[e].first, dir[e].size))
  {
    var dir := Directory(v, d);
    var name := dir[e].name;
    RenderShape(name);
    if Blank(name) {
      JoinNothing(v, path);
    } else if !Unbroken(name) {
      BrokenIsNeverPicked(v, Join(path, Printed(name)), d, e);
    } else {
      UnbrokenIsLeaf(name);
      OpenJoined(v, path, Printed(name), d);
      RenderThenFormat(name);
      FindsItself(dir, e, 0);
    }
  }

  const SLASH_NAME: Name83 := [65, SLASH, 66, SPACE, SPACE, SPACE, SPACE, SPACE, 84, 88, 84]

  lemma SlashNameShape()
    ensures Canonical(SLASH_NAME) && !Unbroken(SLASH_NAME)
  {
    var base, ext := SLASH_NAME[..8], SLASH_NAME[8..];
    assert base == [65, SLASH, 66, SPACE, SPACE, SPACE, SPACE, SPACE] && ext == [84, 88, 84];
    IndexIs(base, SPACE, 3);
    IndexIs(ext, SPACE, 3);
    assert Trim(base) == [65, SLASH, 66] && Render(SLASH_NAME)[1] == SLASH;
  }

  /** Stored as `A/B     TXT`: canonical, and yet no path opens it. */
  lemma SlashNameNeverOpens(v: Volume, path: CString, d: nat, e: nat)
    requires Sane(v) && e < |Directory(v, d)| && Directory(v, d)[e].name == SLASH_NAME
    ensures Canonical(SLASH_NAME) && !Picks(v, path, d, e)
  {
    SlashNameShape();
    BrokenIsNeverPicked(v, path, d, e);
  }

  /** A path with a leading slash names the root to a listing, and no file to fat16_open(). */
  lemma LeadingSlash(v: Volume, path: CString, leaf: CString)
    requires Sane(v) && path != [] && path[0] == SLASH && IsLeaf(leaf) && Subdirectory(v, 0, []).None?
    ensures ResolveDirectory(v, path, 0) == Some(0) && Open(v, Join(path, leaf)).None?
  {
    IndexIs(path, SLASH, 0);
    IndexOfJoined(path, leaf);
    SkipJoined(path, leaf);
    var q: CString := path + [SLASH] + leaf;
    assert q[0..] == q && q[..0] == [];
  }

  // ---------------------------------------------------------------- the loops

  method CopyComponent(p: CString) returns (component: CString, rest: CString)
    ensures component == p[..ComponentLength(p)] && rest == SkipSlashes(p[ComponentLength(p)..])
  {
    var k := 0;
    while k < |p| && p[k] != SLASH && k < 12
      invariant 0 <= k <= |p| && k <= 12
      invariant forall i | 0 <= i < k :: p[i] != SLASH
    {
      k := k + 1;
    }
    assert k < 12 ==> k == IndexOf(p, SLASH) by {
      if k < 12 { IndexIs(p, SLASH, k); }
    }
    assert k == ComponentLength(p);
    component, rest := p[..k], p[k..];
    while rest != [] && rest[0] == SLASH
      invariant SkipSlashes(rest) == SkipSlashes(p[k..])
      decreases |rest|
    {
      rest := rest[1..];
    }
  }

  /** A directory that can be read: the root, or one whose chain ends. */
  predicate IsDirectory(d: nat, dirs: set<nat>) { d == 0 || d in dirs }

  /** Every live entry of such a directory that is a directory is one too. */
  lemma SubdirectoryOk(v: Volume, heads: set<nat>, dirs: set<nat>, d: nat, component: CString)
    requires WellFormed(v, heads, dirs) && IsDirectory(d, dirs)
    ensures Subdirectory(v, d, component).Some? ==> IsDirectory(Subdirectory(v, d, component).value, dirs)
  {
    var dir := Directory(v, d);
    var e := Find(dir, Format83(component), 0);
    if e >= 0 {
      FatWrite.FindSound(dir, Format83(component), 0);
      assert RefOk(dir[e], heads, dirs);
    }
  }

  lemma ChainEnds(v: Volume, heads: set<nat>, dirs: set<nat>, d: nat)
    requires WellFormed(v, heads, dirs) && IsDirectory(d, dirs)
    ensures Followed(d) ==> IsChain(v.fat, d, Chain(v.fat, d))
  {
    assert d in dirs ==> HeadOk(v, d);
  }

  /** find_entry_in_dir(): read the directory, then look for the name. */
  method FindIn(drv: Driver, ghost heads: set<nat>, ghost dirs: set<nat>, d: nat, name: CString) returns (r: Option<Dirent>)
    requires WellFormed(drv.View(), heads, dirs) && IsDirectory(d, dirs)
    ensures var dir := Directory(drv.View(), d); var e := Find(dir, Format83(name), 0);
            r == if e < 0 then None else Some(dir[e])
  {
    ChainEnds(drv.View(), heads, dirs, d);
    var want := FormatName(name);
    var dir := drv.ReadDirectory(d);
    var e := drv.FindEntry(dir, want);
    r := if e < 0 then None else Some(dir[e]);
  }

  /** One step down a path. */
  method EnterDir(drv: Driver, ghost heads: set<nat>, ghost dirs: set<nat>, d: nat, component: CString) returns (r: Option<nat>)
    requires WellFormed(drv.View(), heads, dirs) && IsDirectory(d, dirs)
    ensures r == Subdirectory(drv.View(), d, component) && (r.Some? ==> IsDirectory(r.value, dirs))
  {
    SubdirectoryOk(drv.View(), heads, dirs, d, component);
    var entry := FindIn(drv, heads, dirs, d, component);
    r := if entry.None? || entry.value.attr / 16 % 2 == 0 then None else Some(entry.value.first);
  }

  /** resolve_parent_dir() */
  method ResolveParentDir(drv: Driver, ghost heads: set<nat>, ghost dirs: set<nat>, path: CString)
    returns (r: Option<(nat, CString)>)
    requires WellFormed(drv.View(), heads, dirs)
    ensures r == ResolveParent(drv.View(), path, 0) && (r.Some? ==> IsDirectory(r.value.0, dirs))
  {
    var p, d := path, 0;
    while true
      invariant ResolveParent(drv.View(), p, d) == ResolveParent(drv.View(), path, 0) && IsDirectory(d, dirs)
      decreases |p|
    {
      var component, rest := CopyComponent(p);
      if rest == [] {
        return Some((d, component));
      }
      var sub := EnterDir(drv, heads, dirs, d, component);
      if sub.None? {
        return None;
      }
      p, d := rest, sub.value;
    }
  }

  /** resolve_directory() */
  method ResolveDir(drv: Driver, ghost heads: set<nat>, ghost dirs: set<nat>, path: CString) returns (r: Option<nat>)
    requires WellFormed(drv.View(), heads, dirs)
    ensures r == ResolveDirectory(drv.View(), path, 0) && (r.Some? ==> IsDirectory(r.value, dirs))
  {
    if path == [] {
      return Some(0);
    }
    var p, d := path, 0;
    while true
      invariant ResolveDirectory(drv.View(), p, d) == ResolveDirectory(drv.View(), path, 0) && IsDirectory(d, dirs)
      decreases |p|
    {
      var component, rest := CopyComponent(p);
      if component == [] {
        return Some(d);
      }
      var sub := EnterDir(drv, heads, dirs, d, component);
      if sub.None? {
        return None;
      }
      d := sub.value;
      if rest == [] {
        return Some(d);
      }
      p := rest;
    }
  }

  method RenderLine(raw: Name83) returns (line: seq<byte>)
    ensures line == Render(raw) + [10]
  {
    line := [];
    var i := 0;
    while i < 8 && raw[i] != 32
      invariant 0 <= i <= 8 && line == raw[..i] && forall j | 0 <= j < i :: raw[j] != SPACE
    {
      line := line + [raw[i]];
      i := i + 1;
    }
    IndexIs(raw[..8], SPACE, i);
    assert line == Trim(raw[..8]) by { assert raw[..8][..i] == raw[..i]; }
    if raw[8] != 32 {
      ghost var base := line;
      line := line + [46];
      i := 8;
      while i < 11 && raw[i] != 32
        invariant 8 <= i <= 11 && line == base + [DOT] + raw[8..i] && forall j | 8 <= j < i :: raw[j] != SPACE
      {
        line := line + [raw[i]];
        i := i + 1;
      }
      IndexIs(raw[8..], SPACE, i - 8);
      assert raw[8..i] == Trim(raw[8..]) by { assert raw[8..][..i - 8] == raw[8..i]; }
      assert line == base + ([DOT] + Trim(raw[8..]));
    }
    line := line + [10];
  }

  /** The listing with `text` already in the buffer, as the loop builds it up. */
  function ListInto(dir: seq<Dirent>, i: nat, text: seq<byte>, max: nat): seq<byte>
    requires i <= |dir|
    decreases |dir| - i
  {
    if i == |dir| || IsEnd(dir[i]) then text
    else if Skipped(dir[i]) then ListInto(dir, i + 1, text, max)
    else if |text| + |Line(dir[i])| >= max then text
    else ListInto(dir, i + 1, text + Line(dir[i]), max)
  }

  lemma {:induction false} ListIntoAppends(dir: seq<Dirent>, i: nat, text: seq<byte>, max: nat)
    requires i <= |dir|
    ensures ListInto(dir, i, text, max) == text + Listing(dir, i, |text|, max)
    decreases |dir| - i
  {
    if i < |dir| && !IsEnd(dir[i]) {
      if Skipped(dir[i]) {
        ListIntoAppends(dir, i + 1, text, max);
      } else if |text| + |Line(dir[i])| < max {
        ListIntoAppends(dir, i + 1, text + Line(dir[i]), max);
        assert (text + Line(dir[i])) + Listing(dir, i + 1, |text + Line(dir[i])|, max)
            == text + (Line(dir[i]) + Listing(dir, i + 1, |text| + |Line(dir[i])|, max));
      }
    }
  }

  lemma ListIntoIs(dir: seq<Dirent>, max: nat)
    ensures ListInto(dir, 0, [], max) == Listing(dir, 0, 0, max)
  {
    ListIntoAppends(dir, 0, [], max);
  }

  lemma {:induction false} ListingFits(dir: seq<Dirent>, i: nat, written: nat, max: nat)
    requires i <= |dir|
    ensures Listing(dir, i, written, max) != [] ==> written + |Listing(dir, i, written, max)| < max
    decreases |dir| - i
  {
    var n := ListingIsMaximal(dir, i, written, max);
    LiveInRange(dir, i);
    assert n == 0 ==> Lines(dir, LiveFrom(dir, i)[..n]) == [];
  }

  /** The buffer holds `text` from its start, and behind it what it held before. */
  predicate Holds(buf: seq<byte>, text: seq<byte>, was: seq<byte>) {
    |buf| == |was| && |text| <= |buf| && buf == text + was[|text|..]
  }

  lemma HoldsMore(buf: seq<byte>, text: seq<byte>, was: seq<byte>, line: seq<byte>)
    requires Holds(buf, text, was) && |text| + |line| <= |buf|
    ensures Holds(Splice(buf, |text|, line), text + line, was)
  {
    assert buf[..|text|] == text;
    assert buf[|text| + |line|..] == was[|text| + |line|..];
  }

  /** The loop of fat16_list_dir() over the entries of a directory; returns the bytes written. */
  method ListDirectory(dir: seq<Dirent>, buf: array<byte>, max: nat) returns (written: nat)
    requires max <= buf.Length
    modifies buf
    ensures written == |Listing(dir, 0, 0, max)| && Holds(buf[..], Listing(dir, 0, 0, max), old(buf[..]))
  {
    ghost var text := [];
    written := 0;
    var e := 0;
    while e < |dir|
      invariant 0 <= e <= |dir| && written == |text|
      invariant Holds(buf[..], text, old(buf[..]))
      invariant ListInto(dir, e, text, max) == ListInto(dir, 0, [], max)
    {
      if dir[e].name[0] == 0x00 {
        break;
      }
      if dir[e].name[0] != 0xE5 && dir[e].attr != 0x0F && dir[e].attr / 8 % 2 == 0 {
        var line := RenderLine(dir[e].name);
        if written + |line| >= max {
          break;
        }
        HoldsMore(buf[..], text, old(buf[..]), line);
        Copy(buf, written, line);
        text := text + line;
        written := written + |line|;
      }
      e := e + 1;
    }
    ListIntoIs(dir, max);
    assert text == Listing(dir, 0, 0, max);
  }

  /** A 32-bit count as fat16_list_dir() returns it. */
  function Signed32(x: nat): int { if x < 0x8000_0000 then x else x - 0x1_0000_0000 }

  /** fat16_list_dir(): -1 for a path that names no directory, else the length of the text, which ends in a NUL. */
  method ListDir(drv: Driver, ghost heads: set<nat>, ghost dirs: set<nat>, path: CString, buf: array<byte>, max: nat)
    returns (r: int)
    requires WellFormed(drv.View(), heads, dirs) && max <= buf.Length && max < 0x1_0000_0000
    modifies buf
    ensures match ResolveDirectory(drv.View(), path, 0)
            case None => r == -1 && buf[..] == old(buf[..])
            case Some(d) =>
              var text := Listing(Directory(drv.View(), d), 0, 0, max);
              && r == Signed32(|text|) && -0x8000_0000 <= r < 0x8000_0000 && (r == |text| || r == |text| - 0x1_0000_0000)
              && Holds(buf[..], if max == 0 then text else text + [0], old(buf[..]))
  {
    var d := ResolveDir(drv, heads, dirs, path);
    if d.None? {
      return -1;
    }
    ChainEnds(drv.View(), heads, dirs, d.value);
    var dir := drv.ReadDirectory(d.value);
    var written := ListDirectory(dir, buf, max);
    ghost var text := Listing(dir, 0, 0, max);
    ListingFits(dir, 0, 0, max);
    if max > 0 {
      HoldsMore(buf[..], text, old(buf[..]), [0]);
      Copy(buf, if written < max then written else max - 1, [0]);
    }
    r := Signed32(written);
  }

  /** fat16_open() */
  method OpenPath(drv: Driver, ghost heads: set<nat>, ghost dirs: set<nat>, path: CString) returns (r: Option<File>)
    requires WellFormed(drv.View(), heads, dirs)
    ensures r == Open(drv.View(), path)
  {
    var parent := ResolveParentDir(drv, heads, dirs, path);
    if parent.None? {
      return None;
    }
    var entry := FindIn(drv, heads, dirs, parent.value.0, parent.value.1);
    r := if entry.None? then None else Some(File(entry.value.first, entry.value.size));
  }
}
