/** Bytes, the framing constants and the little-endian fields shared by the components. */
module Bytes {

  type byte = bv8

  const FLAG: byte := 0x7E
  const ESCAPE: byte := 0x7D

  /** The concatenation of a sequence of pieces, in order. */
  function Flatten<T>(pieces: seq<seq<T>>): (whole: seq<T>) {
    if |pieces| == 0 then [] else pieces[0] + Flatten(pieces[1..])
  }

  lemma {:induction false} FlattenAppend<T>(a: seq<seq<T>>, b: seq<seq<T>>)
    ensures Flatten(a + b) == Flatten(a) + Flatten(b)
  {
    if |a| == 0 {
      assert a + b == b;
    } else {
      assert (a + b)[1..] == a[1..] + b;
      FlattenAppend(a[1..], b);
    }
  }

  /** The byte with the value `n`, counted up so that no integer has to become a bit vector. */
  function ByteOf(n: nat): (b: byte)
    requires n < 256
    ensures b as int == n
  {
    if n == 0 then 0
    else
      NextByte(ByteOf(n - 1));
      ByteOf(n - 1) + 1
  }

  lemma NextByte(b: byte)
    requires b != 255
    ensures (b + 1) as int == b as int + 1
  {
  }

  /** A 16-bit little-endian field, as an integer and back. */
  function Le16(lo: byte, hi: byte): (n: int)
    ensures 0 <= n < 0x1_0000
  {
    lo as int + 256 * (hi as int)
  }

  function Le16Bytes(n: int): (s: seq<byte>)
    requires 0 <= n < 0x1_0000
    ensures |s| == 2 && Le16(s[0], s[1]) == n
  {
    [ByteOf(n % 256), ByteOf(n / 256)]
  }

  /** A 32-bit little-endian field. */
  function Le32Bytes(n: int): (s: seq<byte>)
    requires 0 <= n < 0x1_0000_0000
    ensures |s| == 4 && Le16(s[0], s[1]) + 0x1_0000 * Le16(s[2], s[3]) == n
  {
    Le16Bytes(n % 0x1_0000) + Le16Bytes(n / 0x1_0000)
  }

  function Zeros(n: nat): (s: seq<byte>)
    ensures |s| == n
  {
    seq(n, _ => 0)
  }

  /** The `n` bytes of a memory from `addr` on. */
  function Memory(mem: nat -> byte, addr: nat, n: nat): (s: seq<byte>)
    ensures |s| == n
  {
    seq(n, i requires 0 <= i < n => mem(addr + i))
  }

  lemma MemoryAppend(mem: nat -> byte, addr: nat, a: nat, b: nat)
    ensures Memory(mem, addr, a) + Memory(mem, addr + a, b) == Memory(mem, addr, a + b)
  {
  }
}
