/**
 8.3 names: format_83() and the line fat16_list_dir() prints for an entry
 (kernel/src/fat16.c).  A C string is the sequence of its bytes before the NUL.
 */
module FatNames {
  import opened Common

  const SPACE: byte := 32
  const DOT: byte := 46
  const SLASH: byte := 47

  predicate IsLower(b: byte) {
    97 <= b <= 122
  }

  function Upper(b: byte): byte {
    if IsLower(b) then b - 32 else b
  }

  function UpperAll(s: seq<byte>): (r: seq<byte>)
    ensures |r| == |s| && forall i | 0 <= i < |s| :: r[i] == Upper(s[i])
  {
    seq(|s|, i requires 0 <= i < |s| => Upper(s[i]))
  }

  /** The index of the first `b` in `s`, or the length of `s`. */
  function IndexOf(s: seq<byte>, b: byte): (k: nat)
    ensures k <= |s| && (k < |s| ==> s[k] == b) && forall i | 0 <= i < k :: s[i] != b
  {
    if s == [] || s[0] == b then 0 else 1 + IndexOf(s[1..], b)
  }

  function Take(s: seq<byte>, n: nat): seq<byte> {
    if |s| <= n then s else s[..n]
  }

  /** `s` followed by spaces up to length `n`. */
  function Pad(s: seq<byte>, n: nat): (r: seq<byte>)
    requires |s| <= n
    ensures |r| == n && r[..|s|] == s && forall i | |s| <= i < n :: r[i] == SPACE
  {
    s + seq(n - |s|, _ => SPACE)
  }

  function BasePart(name: seq<byte>): seq<byte> {
    UpperAll(Take(name[..IndexOf(name, DOT)], 8))
  }

  function ExtPart(name: seq<byte>): seq<byte> {
    var dot := IndexOf(name, DOT);
    if dot == |name| then [] else UpperAll(Take(name[dot + 1..], 3))
  }

  /** The space-padded, dotless, upper-case 11 bytes a directory entry stores for `name`. */
  function Format83(name: seq<byte>): (raw: seq<byte>)
    ensures |raw| == 11
  {
    Pad(BasePart(name), 8) + Pad(ExtPart(name), 3)
  }

  function Trim(s: seq<byte>): seq<byte> {
    s[..IndexOf(s, SPACE)]
  }

  /** The name fat16_list_dir() prints for an entry, without the newline. */
  function Render(raw: seq<byte>): seq<byte>
    requires |raw| == 11
  {
    Trim(raw[..8]) + (if raw[8] != SPACE then [DOT] + Trim(raw[8..]) else [])
  }

  /** Spaces only as padding, and no lower-case letter. */
  predicate Padded(s: seq<byte>) {
    var k := IndexOf(s, SPACE);
    && (forall i | k <= i < |s| :: s[i] == SPACE)
    && (forall i | 0 <= i < k :: !IsLower(s[i]))
  }

  /** A stored name in the form the 8.3 convention asks for. */
  predicate Canonical(raw: seq<byte>) {
    |raw| == 11 && Padded(raw[..8]) && Padded(raw[8..]) && DOT !in Trim(raw[..8])
  }

  lemma IndexIs(s: seq<byte>, b: byte, k: nat)
    requires k <= |s| && (k < |s| ==> s[k] == b) && forall i | 0 <= i < k :: s[i] != b
    ensures IndexOf(s, b) == k
  {
  }

  lemma PadTrim(s: seq<byte>)
    requires Padded(s)
    ensures Pad(Trim(s), |s|) == s && UpperAll(Trim(s)) == Trim(s)
  {
  }

  lemma PadIsPadded(s: seq<byte>, n: nat)
    requires |s| <= n && SPACE !in s && forall i | 0 <= i < |s| :: !IsLower(s[i])
    ensures Padded(Pad(s, n)) && Trim(Pad(s, n)) == s
  {
    var p := Pad(s, n);
    assert forall i | 0 <= i < |s| :: p[i] == s[i];
    IndexIs(p, SPACE, |s|);
  }

  lemma PartsAreClean(name: seq<byte>)
    requires SPACE !in name
    ensures SPACE !in BasePart(name) && DOT !in BasePart(name) && SPACE !in ExtPart(name)
    ensures forall i | 0 <= i < |BasePart(name)| :: !IsLower(BasePart(name)[i])
    ensures forall i | 0 <= i < |ExtPart(name)| :: !IsLower(ExtPart(name)[i])
  {
    var b := BasePart(name);
    assert forall i | 0 <= i < |b| :: b[i] == Upper(name[i]) && name[i] in name && name[i] != DOT;
    var dot := IndexOf(name, DOT);
    if dot < |name| {
      var e := ExtPart(name);
      assert forall i | 0 <= i < |e| :: e[i] == Upper(name[dot + 1 + i]) && name[dot + 1 + i] in name;
    }
  }

  /** format_83() of a name without spaces is canonical. */
  lemma FormatIsCanonical(name: seq<byte>)
    requires SPACE !in name
    ensures Canonical(Format83(name))
  {
    var raw := Format83(name);
    PartsAreClean(name);
    assert raw[..8] == Pad(BasePart(name), 8) && raw[8..] == Pad(ExtPart(name), 3);
    PadIsPadded(BasePart(name), 8);
    PadIsPadded(ExtPart(name), 3);
  }

  lemma NoSpaceInLine(raw: seq<byte>)
    requires |raw| == 11
    ensures SPACE !in Render(raw)
  {
    assert SPACE !in Trim(raw[..8]) && SPACE !in Trim(raw[8..]) && SPACE !in [DOT];
  }

  /** Printing an entry's name and formatting it again gives the stored name back exactly when that name is canonical. */
  lemma RenderThenFormat(raw: seq<byte>)
    requires |raw| == 11
    ensures Format83(Render(raw)) == raw <==> Canonical(raw)
  {
    var base, ext := Trim(raw[..8]), Trim(raw[8..]);
    var line := Render(raw);
    assert raw == raw[..8] + raw[8..];
    if Canonical(raw) {
      PadTrim(raw[..8]);
      PadTrim(raw[8..]);
      if raw[8] != SPACE {
        assert line[|base|] == DOT;
        IndexIs(line, DOT, |base|);
        assert line[..|base|] == base && line[|base| + 1..] == ext;
      } else {
        assert raw[8..][0] == SPACE && ext == [];
        IndexIs(line, DOT, |base|);
        assert line[..|base|] == base;
      }
    }
    if Format83(line) == raw {
      NoSpaceInLine(raw);
      FormatIsCanonical(line);
    }
  }

  // ---- What is stored for a name ----

  /** The character of the name that goes to byte i of the stored name: before the first dot, or after it. */
  function Kept(name: seq<byte>, dot: nat, i: nat): Option<byte>
    requires dot <= |name|
  {
    if i < 8 then (if i < dot then Some(name[i]) else None)
    else if i < 11 && dot + 1 + (i - 8) < |name| then Some(name[dot + 1 + (i - 8)])
    else None
  }

  /** `dot` is where the name has its first dot, byte 46, or its length when it has none. */
  predicate FirstDot(name: seq<byte>, dot: nat) {
    dot <= |name| && (dot < |name| ==> name[dot] == 46) && forall k | 0 <= k < dot :: name[k] != 46
  }

  /**
   Each of the 11 bytes: the name's character there, less 32 when it is one of 97 to 122 and itself
   otherwise; and 32, a space, where the name has none.
   */
  lemma StoredByte(name: seq<byte>, dot: nat, i: nat)
    requires FirstDot(name, dot) && i < 11
    ensures Format83(name)[i] == match Kept(name, dot, i)
                                 case None => 32
                                 case Some(b) => if 97 <= b <= 122 then b - 32 else b
  {
    IndexIs(name, DOT, dot);
    if i < 8 {
      assert Format83(name)[i] == Pad(BasePart(name), 8)[i];
      if i < dot { assert Pad(BasePart(name), 8)[i] == BasePart(name)[i]; }
    } else {
      assert Format83(name)[i] == Pad(ExtPart(name), 3)[i - 8];
      if dot + 1 + (i - 8) < |name| { assert Pad(ExtPart(name), 3)[i - 8] == ExtPart(name)[i - 8]; }
    }
  }

  /** Equal, or a lower-case letter and its capital. */
  predicate SameLetter(a: byte, b: byte) {
    a == b || (97 <= a <= 122 && b == a - 32) || (97 <= b <= 122 && a == b - 32)
  }

  /** A missing character counts as a space. */
  predicate SameKept(a: Option<byte>, b: Option<byte>) {
    SameLetter(if a.None? then 32 else a.value, if b.None? then 32 else b.value)
  }

  /** The parts of the two names that are stored agree, up to letter case. */
  predicate SameName(a: seq<byte>, b: seq<byte>) {
    forall i | 0 <= i < 11 :: SameKept(Kept(a, IndexOf(a, DOT), i), Kept(b, IndexOf(b, DOT), i))
  }

  /** Two names have the same stored name exactly when what is kept of them agrees up to letter case. */
  lemma SameStoredName(a: seq<byte>, b: seq<byte>)
    ensures Format83(a) == Format83(b) <==> SameName(a, b)
  {
    var p, q := IndexOf(a, DOT), IndexOf(b, DOT);
    forall i | 0 <= i < 11 ensures Format83(a)[i] == Format83(b)[i] <==> SameKept(Kept(a, p, i), Kept(b, q, i)) {
      StoredByte(a, p, i);
      StoredByte(b, q, i);
    }
    if SameName(a, b) {
      forall i | 0 <= i < 11 ensures Format83(a)[i] == Format83(b)[i] {
        assert SameKept(Kept(a, p, i), Kept(b, q, i));
      }
    }
  }

  // ---- format_83() as it runs ----

  /** The first loop of format_83(): up to eight characters before the dot. */
  method FormatBase(name: CString) returns (out: seq<byte>, p: nat)
    ensures out == Pad(BasePart(name), 8) && p <= IndexOf(name, DOT)
  {
    out, p := seq(8, _ => SPACE), 0;
    ghost var dot := IndexOf(name, DOT);
    while p < |name| && name[p] != DOT && p < 8
      invariant 0 <= p <= dot && p <= 8 && |out| == 8
      invariant forall i | 0 <= i < p :: out[i] == Upper(name[i])
      invariant forall i | p <= i < 8 :: out[i] == SPACE
    {
      out := out[p := if 97 <= name[p] <= 122 then name[p] - 97 + 65 else name[p]];
      p := p + 1;
    }
    assert p == |BasePart(name)|;
    assert out == Pad(BasePart(name), 8);
  }

  /** The last loop: up to three characters of what follows the dot. */
  method FormatExt(ext: seq<byte>) returns (out: seq<byte>)
    ensures out == Pad(UpperAll(Take(ext, 3)), 3)
  {
    out := seq(3, _ => SPACE);
    var p := 0;
    while p < |ext| && p < 3
      invariant 0 <= p <= |ext| && p <= 3 && |out| == 3
      invariant forall i | 0 <= i < p :: out[i] == Upper(ext[i])
      invariant forall i | p <= i < 3 :: out[i] == SPACE
    {
      out := out[p := if 97 <= ext[p] <= 122 then ext[p] - 97 + 65 else ext[p]];
      p := p + 1;
    }
    assert out == Pad(UpperAll(Take(ext, 3)), 3);
  }

  /** The middle loop: skip to the dot, or to the end. */
  method SkipToDot(name: CString, from: nat) returns (p: nat)
    requires from <= IndexOf(name, DOT)
    ensures p == IndexOf(name, DOT)
  {
    p := from;
    while p < |name| && name[p] != DOT
      invariant p <= IndexOf(name, DOT)
    {
      p := p + 1;
    }
  }

  /** format_83() with its three loops. */
  method FormatName(name: CString) returns (out: seq<byte>)
    ensures out == Format83(name)
  {
    var base, from := FormatBase(name);
    var p := SkipToDot(name, from);
    var ext := [SPACE, SPACE, SPACE];
    if p < |name| {
      ext := FormatExt(name[p + 1..]);
    } else {
      assert ext == Pad([], 3);
    }
    out := base + ext;
  }
}
