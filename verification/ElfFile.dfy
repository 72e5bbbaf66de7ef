/**
 The ELF64 file as elf_load_user_program() of kernel/src/elf_loader.c reads it: the header
 checks, the program headers (common/include/elf64.h) and the test that a segment lies
 inside the file. All arithmetic is on 64-bit words.
 */
module ElfFile {
  import opened Common

  const U64: nat := 0x1_0000_0000_0000_0000

  type u64 = x: int | 0 <= x < 0x1_0000_0000_0000_0000

  function Wrap(x: nat): nat { if x < U64 then x else x % U64 }

  /** A sum of two 64-bit words, as the machine computes it. */
  function Add(a: u64, b: u64): u64 { if a + b < U64 then a + b else a + b - U64 }

  /** The file in memory, and what the addresses past it hold. */
  datatype File = File(bytes: seq<byte>, beyond: nat -> byte)

  function ByteOf(file: File, o: nat): byte {
    var k := Wrap(o);
    if k < |file.bytes| then file.bytes[k] else file.beyond(k)
  }

  function Number16(file: File, o: nat): (r: nat)
    ensures r < 0x1_0000
  {
    ByteOf(file, o) + 0x100 * ByteOf(file, o + 1)
  }

  function Number32(file: File, o: nat): (r: nat)
    ensures r < 0x1_0000_0000
  {
    Number16(file, o) + 0x1_0000 * Number16(file, o + 2)
  }

  function Number64(file: File, o: nat): u64 {
    Number32(file, o) + 0x1_0000_0000 * Number32(file, o + 4)
  }

  /** A program header: only PT_LOAD ones (`load`) are mapped. */
  datatype Segment = Segment(load: bool, vaddr: u64, memsz: u64, offset: u64, filesz: u64, write: bool, exec: bool)

  const MAGIC: seq<byte> := [0x7F, 0x45, 0x4C, 0x46]

  /** The checks on size, magic number, class and machine. */
  predicate HeaderOk(file: File) {
    |file.bytes| >= 64 && file.bytes[..4] == MAGIC && file.bytes[4] == 2 && Number16(file, 18) == 62
  }

  function EntryPoint(file: File): nat { Number64(file, 24) }

  /** The program header at offset o. */
  function HeaderAt(file: File, o: nat): Segment {
    var flags := Number32(file, o + 4);
    Segment(Number32(file, o) == 1, Number64(file, o + 16), Number64(file, o + 40),
            Number64(file, o + 8), Number64(file, o + 32), flags / 2 % 2 == 1, flags % 2 == 1)
  }

  /** The program headers in order; neither their offset nor their number is checked against the file. */
  function Segments(file: File): (r: seq<Segment>)
    ensures |r| == Number16(file, 56)
  {
    var o := Number64(file, 32);
    seq(Number16(file, 56), i requires 0 <= i => HeaderAt(file, o + 56 * i))
  }

  predicate InFile(file: File, g: Segment) { g.offset + g.filesz <= |file.bytes| }

  /** The test the loader makes: the sum wraps. */
  predicate Accepts(file: File, g: Segment) { Add(g.offset, g.filesz) <= |file.bytes| }

  /** The loader's test means what it should exactly when the sum does not wrap. */
  lemma AcceptedInFile(file: File, g: Segment)
    requires |file.bytes| < U64
    ensures InFile(file, g) <==> Accepts(file, g) && g.offset + g.filesz < U64
  {
  }

  /** The address the file bytes of a segment end at, as the copy computes it. */
  function FileEnd(g: Segment): nat { Add(g.vaddr, g.filesz) }

  /** The byte the loader puts at address a: from the segment's file range, or zero. */
  function ImageByte(file: File, g: Segment, a: nat): byte {
    if g.vaddr <= a < FileEnd(g) then ByteOf(file, g.offset + (a - g.vaddr)) else 0
  }

  /** For a segment inside the file it is the byte the gABI asks for. */
  lemma SegmentByte(file: File, g: Segment, k: nat)
    requires InFile(file, g) && g.vaddr + |file.bytes| < U64
    ensures ImageByte(file, g, g.vaddr + k) == if k < g.filesz then file.bytes[g.offset + k] else 0
  {
  }

  /** Byte k of the segment is read from inside the file. */
  predicate Sourced(file: File, g: Segment, k: nat) { Wrap(g.offset + k) < |file.bytes| }

  /** All file bytes of an accepted segment lie inside the file exactly when its file range does not wrap. */
  lemma SourcedWhenUnwrapped(file: File, g: Segment)
    requires |file.bytes| < U64 && Accepts(file, g)
    ensures (forall k: nat | k < g.filesz :: Sourced(file, g, k)) <==> g.offset + g.filesz < U64
  {
    AcceptedInFile(file, g);
    if g.offset + g.filesz < U64 {
      forall k: nat | k < g.filesz ensures Sourced(file, g, k) { }
    } else {
      var first: nat := if g.offset < |file.bytes| then |file.bytes| - g.offset else 0;
      assert !Sourced(file, g, first);
    }
  }

  /** One byte at the last offset there is: every file accepts it and none supplies it. */
  lemma StrayByte(file: File)
    requires |file.bytes| < U64 - 1
    ensures var g := Segment(true, 0x80_0040_0000, 1, U64 - 1, 1, true, true);
            Accepts(file, g) && !InFile(file, g) && ImageByte(file, g, g.vaddr) == file.beyond(U64 - 1)
  {
  }
}
