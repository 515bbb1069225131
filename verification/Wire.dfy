/** Bytes, and numbers in network order. */
module Wire {

  type Byte = b: int | 0 <= b < 256

  const TWO32 := 0x1_0000_0000

  /** Conversion to uint32_t. */
  function U32(x: int): (r: nat)
    ensures r < TWO32
  {
    x % TWO32
  }

  /** pntoh16 */
  function U16At(s: seq<Byte>, i: nat): (r: nat)
    requires i + 2 <= |s|
    ensures r < 0x1_0000
  {
    256 * (s[i] as int) + s[i + 1] as int
  }

  /** pntoh24 */
  function U24At(s: seq<Byte>, i: nat): (r: nat)
    requires i + 3 <= |s|
    ensures r < 0x100_0000
  {
    65536 * (s[i] as int) + 256 * (s[i + 1] as int) + s[i + 2] as int
  }

  /** The number whose bytes, in network order, are b. */
  function BigEndian(b: seq<nat>): nat {
    if b == [] then 0 else 256 * BigEndian(b[..|b| - 1]) + b[|b| - 1]
  }

  /** The number v in n bytes, most significant first. */
  function NetworkBytes(v: nat, n: nat): (b: seq<Byte>)
    ensures |b| == n
  {
    if n == 0 then [] else NetworkBytes(v / 256, n - 1) + [v % 256]
  }

  /** memmove within the buffer: n bytes from src to dst. */
  method MemMove(buf: array<Byte>, dst: nat, src: nat, n: nat)
    requires dst + n <= buf.Length && src + n <= buf.Length
    modifies buf
    ensures buf[dst..dst + n] == old(buf[src..src + n])
    ensures forall i | 0 <= i < buf.Length && !(dst <= i < dst + n) :: buf[i] == old(buf[i])
  {
    forall i | 0 <= i < n { buf[dst + i] := buf[src + i]; }
  }
}
