/** Types the models of the disk, the memory and the scheduler share. */
module Common {
  type byte = x: int | 0 <= x < 256

  /** A C string: the bytes before its NUL. */
  type CString = s: seq<byte> | 0 !in s

  /** ELF_USER_STACK_TOP, and the topmost page below it. */
  const STACK_TOP: nat := 0x8010000000
  const STACK_PAGE: nat := 0x800FFFF000

  /** USER_HEAP_VADDR_START */
  const HEAP_START: nat := 0x8001400000

  datatype Option<+T> = None | Some(value: T)

  function Zeros(n: nat): seq<byte> { seq(n, _ => 0) }

  /** `s` with `x` copied over it at offset o. */
  function Splice(s: seq<byte>, o: nat, x: seq<byte>): (r: seq<byte>)
    requires o + |x| <= |s|
    ensures |r| == |s|
  {
    s[..o] + x + s[o + |x|..]
  }

  /** memcpy() */
  method Copy(buf: array<byte>, o: nat, x: seq<byte>)
    requires o + |x| <= buf.Length
    modifies buf
    ensures buf[..] == Splice(old(buf[..]), o, x)
  {
    var k := 0;
    while k < |x|
      invariant 0 <= k <= |x|
      invariant forall j | 0 <= j < buf.Length :: buf[j] == if o <= j < o + k then x[j - o] else old(buf[j])
    {
      buf[o + k] := x[k];
      k := k + 1;
    }
  }
}
