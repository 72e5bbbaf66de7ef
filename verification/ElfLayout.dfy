/**
 The ELF64 header and program headers as common/include/elf64.h declares them: packed
 structures of little-endian fields. What elf_load_user_program() reads out of a file
 that holds them, and the process it builds, in the terms of those fields.
 */
module ElfLayout {
  import opened Common
  import opened LittleEndian
  import opened ElfFile

  type u16 = x: int | 0 <= x < 0x1_0000
  type u32 = x: int | 0 <= x < 0x1_0000_0000
  type Ident = s: seq<byte> | |s| == 16 witness Zeros(16)

  /** Elf64_Ehdr */
  datatype Ehdr = Ehdr(
    ident: Ident, kind: u16, machine: u16, version: u32, entry: u64, phoff: u64, shoff: u64, flags: u32,
    ehsize: u16, phentsize: u16, phnum: u16, shentsize: u16, shnum: u16, shstrndx: u16)

  /** Elf64_Phdr */
  datatype Phdr = Phdr(
    kind: u32, flags: u32, offset: u64, vaddr: u64, paddr: u64, filesz: u64, memsz: u64, align: u64)

  const HALF: nat := 2
  const WORD: nat := 4
  const XWORD: nat := 8

  function EhdrBytes(h: Ehdr): (r: seq<byte>)
    ensures |r| == 64
  {
    h.ident + Le(h.kind, HALF) + Le(h.machine, HALF) + Le(h.version, WORD)
    + Le(h.entry, XWORD) + Le(h.phoff, XWORD) + Le(h.shoff, XWORD) + Le(h.flags, WORD)
    + Le(h.ehsize, HALF) + Le(h.phentsize, HALF) + Le(h.phnum, HALF)
    + Le(h.shentsize, HALF) + Le(h.shnum, HALF) + Le(h.shstrndx, HALF)
  }

  function PhdrBytes(p: Phdr): (r: seq<byte>)
    ensures |r| == 56
  {
    Le(p.kind, WORD) + Le(p.flags, WORD) + Le(p.offset, XWORD) + Le(p.vaddr, XWORD)
    + Le(p.paddr, XWORD) + Le(p.filesz, XWORD) + Le(p.memsz, XWORD) + Le(p.align, XWORD)
  }

  /** 0x7F "ELF", class 2 and machine 62. */
  predicate RightHeader(h: Ehdr) { h.ident[..5] == [0x7F, 0x45, 0x4C, 0x46, 2] && h.machine == 62 }

  /** The file starts with header `h`, and the program headers `ps` stand where it says. */
  ghost predicate HasHeaders(file: File, h: Ehdr, ps: seq<Phdr>) {
    && 64 <= |file.bytes| < U64 && file.bytes[..64] == EhdrBytes(h)
    && |ps| == h.phnum && h.phoff + 56 * |ps| <= |file.bytes|
    && forall i | 0 <= i < |ps| :: HasHeader(file, h.phoff + 56 * i, ps[i])
  }

  ghost predicate HasHeader(file: File, o: nat, p: Phdr) {
    o + 56 <= |file.bytes| < U64 && file.bytes[o..o + 56] == PhdrBytes(p)
  }

  // ---------------------------------------------------------------- reading a field

  /** The n bytes at o are those of x. */
  ghost predicate Field(file: File, o: nat, x: nat, n: nat) {
    o + n <= |file.bytes| < U64 && x < Scale(n) && file.bytes[o..o + n] == Le(x, n)
  }

  lemma Read16(file: File, o: nat)
    requires o + 2 <= |file.bytes| < U64
    ensures Number16(file, o) == Value(file.bytes[o..o + 2])
  {
    Value2(file.bytes[o..o + 2]);
  }

  lemma Read32(file: File, o: nat)
    requires o + 4 <= |file.bytes| < U64
    ensures Number32(file, o) == Value(file.bytes[o..o + 4])
  {
    var b := file.bytes[o..o + 4];
    assert b[..2] == file.bytes[o..o + 2] && b[2..] == file.bytes[o + 2..o + 2 + 2];
    Read16(file, o);
    Read16(file, o + 2);
    Value4(b);
  }

  lemma Read64(file: File, o: nat)
    requires o + 8 <= |file.bytes| < U64
    ensures Number64(file, o) == Value(file.bytes[o..o + 8])
  {
    var b := file.bytes[o..o + 8];
    assert b[..4] == file.bytes[o..o + 4] && b[4..] == file.bytes[o + 4..o + 4 + 4];
    Read32(file, o);
    Read32(file, o + 4);
    Value8(b);
  }

  lemma FieldReads(file: File, o: nat, x: nat)
    ensures Field(file, o, x, HALF) ==> Number16(file, o) == x
    ensures Field(file, o, x, WORD) ==> Number32(file, o) == x
    ensures Field(file, o, x, XWORD) ==> Number64(file, o) == x
  {
    if Field(file, o, x, HALF) {
      Read16(file, o);
      LeReads(x, HALF);
    }
    if Field(file, o, x, WORD) {
      Read32(file, o);
      LeReads(x, WORD);
    }
    if Field(file, o, x, XWORD) {
      Read64(file, o);
      LeReads(x, XWORD);
    }
  }

  lemma Scales()
    ensures Scale(HALF) == 0x1_0000 && Scale(WORD) == 0x1_0000_0000 && Scale(XWORD) == U64
  {
    assert Scale(HALF - 2) == 1 && Scale(HALF - 1) == 256;
    assert Scale(WORD - 2) == Scale(HALF) && Scale(WORD - 1) == 256 * Scale(HALF);
    assert Scale(XWORD - 4) == Scale(WORD) && Scale(XWORD - 3) == 256 * Scale(WORD);
    assert Scale(XWORD - 2) == 256 * Scale(XWORD - 3) && Scale(XWORD - 1) == 256 * Scale(XWORD - 2);
  }

  /** A part of a structure that stands at o. */
  lemma PartOf(file: File, o: nat, pre: seq<byte>, x: nat, n: nat, post: seq<byte>)
    requires o + |pre| + n + |post| <= |file.bytes| < U64 && x < Scale(n)
    requires file.bytes[o..o + |pre| + n + |post|] == pre + Le(x, n) + post
    ensures Field(file, o + |pre|, x, n)
  {
    PartAt(file.bytes, o, pre, Le(x, n), post);
  }

  // ---------------------------------------------------------------- the headers

  lemma FirstFields(file: File, o: nat, p: Phdr)
    requires HasHeader(file, o, p)
    ensures Number32(file, o) == p.kind && Number32(file, o + 4) == p.flags && Number64(file, o + 8) == p.offset
  {
    Scales();
    var s := file.bytes[o..o + 56];
    var kind, flags, offset := Le(p.kind, WORD), Le(p.flags, WORD), Le(p.offset, XWORD);
    var rest := Le(p.vaddr, XWORD) + Le(p.paddr, XWORD) + Le(p.filesz, XWORD) + Le(p.memsz, XWORD) + Le(p.align, XWORD);
    assert s == [] + kind + (flags + offset + rest);
    PartOf(file, o, [], p.kind, WORD, flags + offset + rest);
    assert s == kind + flags + (offset + rest);
    PartOf(file, o, kind, p.flags, WORD, offset + rest);
    assert s == (kind + flags) + offset + rest;
    PartOf(file, o, kind + flags, p.offset, XWORD, rest);
    FieldReads(file, o, p.kind);
    FieldReads(file, o + 4, p.flags);
    FieldReads(file, o + 8, p.offset);
  }

  lemma LastFields(file: File, o: nat, p: Phdr)
    requires HasHeader(file, o, p)
    ensures Number64(file, o + 16) == p.vaddr && Number64(file, o + 32) == p.filesz && Number64(file, o + 40) == p.memsz
  {
    Scales();
    var s := file.bytes[o..o + 56];
    var first := Le(p.kind, WORD) + Le(p.flags, WORD) + Le(p.offset, XWORD);
    var vaddr, paddr := Le(p.vaddr, XWORD), Le(p.paddr, XWORD);
    var filesz, memsz, align := Le(p.filesz, XWORD), Le(p.memsz, XWORD), Le(p.align, XWORD);
    assert s == first + vaddr + (paddr + filesz + memsz + align);
    PartOf(file, o, first, p.vaddr, XWORD, paddr + filesz + memsz + align);
    assert s == (first + vaddr + paddr) + filesz + (memsz + align);
    PartOf(file, o, first + vaddr + paddr, p.filesz, XWORD, memsz + align);
    assert s == (first + vaddr + paddr + filesz) + memsz + align;
    PartOf(file, o, first + vaddr + paddr + filesz, p.memsz, XWORD, align);
    FieldReads(file, o + 16, p.vaddr);
    FieldReads(file, o + 32, p.filesz);
    FieldReads(file, o + 40, p.memsz);
  }

  /** What a program header tells the loader; bit 1 of p_flags is PF_W and bit 0 is PF_X. */
  function AsSegment(p: Phdr): Segment {
    Segment(p.kind == 1, p.vaddr, p.memsz, p.offset, p.filesz, p.flags / 2 % 2 == 1, p.flags % 2 == 1)
  }

  lemma ReadsHeader(file: File, o: nat, p: Phdr)
    requires HasHeader(file, o, p)
    ensures HeaderAt(file, o) == AsSegment(p)
  {
    FirstFields(file, o, p);
    LastFields(file, o, p);
  }

  lemma HeaderMachine(file: File, h: Ehdr)
    requires 64 <= |file.bytes| < U64 && file.bytes[..64] == EhdrBytes(h)
    ensures file.bytes[..16] == h.ident && Number16(file, 18) == h.machine
  {
    Scales();
    var s := file.bytes[0..64];
    var front := h.ident + Le(h.kind, HALF);
    var rest := Le(h.version, WORD) + Le(h.entry, XWORD) + Le(h.phoff, XWORD) + Le(h.shoff, XWORD) + Le(h.flags, WORD)
              + Le(h.ehsize, HALF) + Le(h.phentsize, HALF) + Le(h.phnum, HALF)
              + Le(h.shentsize, HALF) + Le(h.shnum, HALF) + Le(h.shstrndx, HALF);
    assert s == front + Le(h.machine, HALF) + rest;
    assert s[..16] == h.ident && s[..16] == file.bytes[..16];
    PartOf(file, 0, front, h.machine, HALF, rest);
    FieldReads(file, 18, h.machine);
  }

  lemma HeaderEntry(file: File, h: Ehdr)
    requires 64 <= |file.bytes| < U64 && file.bytes[..64] == EhdrBytes(h)
    ensures Number64(file, 24) == h.entry && Number64(file, 32) == h.phoff
  {
    Scales();
    var s := file.bytes[0..64];
    var front := h.ident + Le(h.kind, HALF) + Le(h.machine, HALF) + Le(h.version, WORD);
    var entry, phoff := Le(h.entry, XWORD), Le(h.phoff, XWORD);
    var rest := Le(h.shoff, XWORD) + Le(h.flags, WORD) + Le(h.ehsize, HALF) + Le(h.phentsize, HALF) + Le(h.phnum, HALF)
              + Le(h.shentsize, HALF) + Le(h.shnum, HALF) + Le(h.shstrndx, HALF);
    assert s == front + entry + (phoff + rest);
    PartOf(file, 0, front, h.entry, XWORD, phoff + rest);
    assert s == (front + entry) + phoff + rest;
    PartOf(file, 0, front + entry, h.phoff, XWORD, rest);
    FieldReads(file, 24, h.entry);
    FieldReads(file, 32, h.phoff);
  }

  lemma HeaderCount(file: File, h: Ehdr)
    requires 64 <= |file.bytes| < U64 && file.bytes[..64] == EhdrBytes(h)
    ensures Number16(file, 56) == h.phnum
  {
    Scales();
    var s := file.bytes[0..64];
    var front := h.ident + Le(h.kind, HALF) + Le(h.machine, HALF) + Le(h.version, WORD) + Le(h.entry, XWORD)
               + Le(h.phoff, XWORD) + Le(h.shoff, XWORD) + Le(h.flags, WORD) + Le(h.ehsize, HALF) + Le(h.phentsize, HALF);
    var back := Le(h.shentsize, HALF) + Le(h.shnum, HALF) + Le(h.shstrndx, HALF);
    assert s == front + Le(h.phnum, HALF) + back;
    PartOf(file, 0, front, h.phnum, HALF, back);
    FieldReads(file, 56, h.phnum);
  }

  lemma FirstBytes(file: File, ident: Ident)
    requires |file.bytes| >= 64 && file.bytes[..16] == ident
    ensures file.bytes[..4] == MAGIC && file.bytes[4] == 2 <==> ident[..5] == [0x7F, 0x45, 0x4C, 0x46, 2]
  {
    assert file.bytes[..4] == ident[..4] && file.bytes[4] == ident[4];
    assert ident[..5] == ident[..4] + [ident[4]];
  }

  lemma PassesChecks(file: File, h: Ehdr)
    requires 64 <= |file.bytes| < U64 && file.bytes[..64] == EhdrBytes(h)
    ensures HeaderOk(file) <==> RightHeader(h)
  {
    HeaderMachine(file, h);
    FirstBytes(file, h.ident);
  }

  /**
   A file that holds these structures is read as exactly them: it passes the checks if and only
   if its first five bytes are 0x7F "ELF" and class 2 and its machine is 62, its entry point is
   e_entry, and its segments are the program headers, in order.
   */
  lemma ReadsFile(file: File, h: Ehdr, ps: seq<Phdr>)
    requires HasHeaders(file, h, ps)
    ensures HeaderOk(file) <==> RightHeader(h)
    ensures EntryPoint(file) == h.entry
    ensures |Segments(file)| == |ps| && forall i | 0 <= i < |ps| :: Segments(file)[i] == AsSegment(ps[i])
  {
    PassesChecks(file, h);
    HeaderEntry(file, h);
    HeaderCount(file, h);
    forall i | 0 <= i < |ps| ensures Segments(file)[i] == AsSegment(ps[i]) {
      ReadsHeader(file, h.phoff + 56 * i, ps[i]);
    }
  }
}
