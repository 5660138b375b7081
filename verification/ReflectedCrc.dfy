/** Reflected 16-bit CRCs, one bit at a time, for any polynomial whose top bit is set. */
module ReflectedCrc {
  import opened Bytes

  /** A reflected polynomial; its top bit is the constant term. */
  type Poly = p: bv16 | p & 0x8000 != 0 witness 0x8408

  /** Addition of polynomials. */
  function Add(x: bv16, y: bv16): bv16 {
    x ^ y
  }

  function Half(x: bv16): bv16 {
    x >> 1
  }

  predicate Odd(x: bv16) {
    x & 1 != 0
  }

  function BitStep(p: Poly, r: bv16): bv16 {
    if Odd(r) then Add(Half(r), p) else Half(r)
  }

  function Shift4(p: Poly, r: bv16): bv16 {
    BitStep(p, BitStep(p, BitStep(p, BitStep(p, r))))
  }

  function Shift8(p: Poly, r: bv16): bv16 {
    Shift4(p, Shift4(p, r))
  }

  /** Eight bit steps after the data byte has been added to the low end of the register. */
  function ByteStep(p: Poly, r: bv16, b: byte): bv16 {
    Shift8(p, r ^ (b as bv16))
  }

  /** The register after `data`. */
  function Register(p: Poly, seed: bv16, data: seq<byte>): bv16 {
    if |data| == 0 then seed else ByteStep(p, Register(p, seed, data[..|data| - 1]), data[|data| - 1])
  }

  // ---------- On the wire: low byte first ----------

  function Lo(r: bv16): byte {
    (r & 0xFF) as byte
  }

  function Hi(r: bv16): byte {
    ((r >> 8) & 0xFF) as byte
  }

  function WireBytes(r: bv16): (s: seq<byte>)
    ensures |s| == 2
  {
    [Lo(r), Hi(r)]
  }

  function Joined(lo: byte, hi: byte): bv16 {
    (lo as bv16) | ((hi as bv16) << 8)
  }

  lemma JoinParts(r: bv16)
    ensures Joined(Lo(r), Hi(r)) == r
  {
  }

  lemma PartsOfJoined(lo: byte, hi: byte)
    ensures Lo(Joined(lo, hi)) == lo && Hi(Joined(lo, hi)) == hi
  {
  }

  lemma JoinedIsWire(lo: byte, hi: byte, r: bv16)
    ensures Joined(lo, hi) == r <==> [lo, hi] == WireBytes(r)
  {
    hide Joined, Lo, Hi;
    JoinParts(r);
    PartsOfJoined(lo, hi);
    if [lo, hi] == WireBytes(r) { assert lo == [lo, hi][0] == Lo(r) && hi == [lo, hi][1] == Hi(r); }
  }

  // ---------- Tables ----------

  /** Sixteen values of a function, from `base` on. */
  function Sample(f: bv16 -> bv16, base: bv16): (s: seq<bv16>)
    ensures |s| == 16
  {
    [f(base | 0), f(base | 1), f(base | 2), f(base | 3), f(base | 4), f(base | 5), f(base | 6), f(base | 7),
     f(base | 8), f(base | 9), f(base | 10), f(base | 11), f(base | 12), f(base | 13), f(base | 14), f(base | 15)]
  }

  lemma SampleAt(f: bv16 -> bv16, base: bv16, lo: bv4)
    ensures Sample(f, base)[lo as int] == f(base | (lo as bv16))
  {
    var k := lo as int;
    if k == 0 { assert lo == 0; }
    else if k == 1 { assert lo == 1; } else if k == 2 { assert lo == 2; } else if k == 3 { assert lo == 3; }
    else if k == 4 { assert lo == 4; } else if k == 5 { assert lo == 5; } else if k == 6 { assert lo == 6; }
    else if k == 7 { assert lo == 7; } else if k == 8 { assert lo == 8; } else if k == 9 { assert lo == 9; }
    else if k == 10 { assert lo == 10; } else if k == 11 { assert lo == 11; } else if k == 12 { assert lo == 12; }
    else if k == 13 { assert lo == 13; } else if k == 14 { assert lo == 14; } else { assert lo == 15; }
  }

  // ---------- Linearity: high bits pass through the steps unchanged ----------

  lemma StepAdds(p: Poly, x: bv16, y: bv16)
    requires !Odd(y)
    ensures BitStep(p, Add(x, y)) == Add(BitStep(p, x), Half(y))
  {
    hide Add, Half, Odd;
    SameBit(x, y);
    HalfAdds(x, y);
    Swap(Half(x), Half(y), p);
  }

  lemma SameBit(x: bv16, y: bv16)
    requires !Odd(y)
    ensures Odd(Add(x, y)) == Odd(x)
  {
  }

  lemma HalfAdds(x: bv16, y: bv16)
    ensures Half(Add(x, y)) == Add(Half(x), Half(y))
  {
  }

  lemma Swap(x: bv16, y: bv16, z: bv16)
    ensures Add(Add(x, y), z) == Add(Add(x, z), y)
  {
    hide Add;
    Associative(x, y, z);
    Associative(x, z, y);
    Commute(y, z);
  }

  lemma Commute(x: bv16, y: bv16)
    ensures Add(x, y) == Add(y, x)
  {
  }

  lemma Associative(x: bv16, y: bv16, z: bv16)
    ensures Add(Add(x, y), z) == Add(x, Add(y, z))
  {
  }

  lemma Shift4Adds(p: Poly, x: bv16, y: bv16)
    requires !Odd(y) && !Odd(Half(y)) && !Odd(Half(Half(y))) && !Odd(Half(Half(Half(y))))
    ensures Shift4(p, Add(x, y)) == Add(Shift4(p, x), Half(Half(Half(Half(y)))))
  {
    hide Add, Half, Odd, BitStep;
    var x1 := BitStep(p, x);
    var x2 := BitStep(p, x1);
    StepAdds(p, x, y);
    StepAdds(p, x1, Half(y));
    StepAdds(p, x2, Half(Half(y)));
    StepAdds(p, BitStep(p, x2), Half(Half(Half(y))));
  }

  lemma Shift8Adds(p: Poly, x: bv16, y: bv16)
    requires y & 0xFF == 0
    ensures Shift8(p, Add(x, y)) == Add(Shift8(p, x), y >> 8)
  {
    var y4 := Half(Half(Half(Half(y))));
    Evens(y);
    hide Add, Half, Odd, Shift4;
    Shift4Adds(p, x, y);
    Shift4Adds(p, Shift4(p, x), y4);
  }

  lemma Evens(y: bv16)
    requires y & 0xFF == 0
    ensures var z := Half(Half(Half(Half(y))));
            !Odd(y) && !Odd(Half(y)) && !Odd(Half(Half(y))) && !Odd(Half(Half(Half(y)))) &&
            !Odd(z) && !Odd(Half(z)) && !Odd(Half(Half(z))) && !Odd(Half(Half(Half(z)))) &&
            Half(Half(Half(Half(z)))) == y >> 8
  {
  }

  // ---------- Injectivity: what damage changes ----------

  lemma RegisterAppend2(p: Poly, seed: bv16, data: seq<byte>, a: byte, b: byte)
    ensures Register(p, seed, data + [a, b]) == ByteStep(p, ByteStep(p, Register(p, seed, data), a), b)
  {
    var whole := data + [a, b];
    assert whole[..|whole| - 1] == data + [a];
    assert (data + [a])[..|data|] == data;
  }

  /** One byte after the other. */
  lemma RegisterNext(p: Poly, seed: bv16, data: seq<byte>, k: nat)
    requires k < |data|
    ensures Register(p, seed, data[..k + 1]) == ByteStep(p, Register(p, seed, data[..k]), data[k])
  {
    assert data[..k + 1][..k] == data[..k];
  }

  /** `r` lists the registers along `data`. */
  lemma {:induction false} RegistersAlong(p: Poly, seed: bv16, data: seq<byte>, r: seq<bv16>, n: nat)
    requires n <= |data| && |r| == |data| + 1 && r[0] == seed
    requires forall k | 0 <= k < |data| :: ByteStep(p, r[k], data[k]) == r[k + 1]
    ensures Register(p, seed, data[..n]) == r[n]
  {
    hide ByteStep;
    if n > 0 {
      RegistersAlong(p, seed, data, r, n - 1);
      RegisterNext(p, seed, data, n - 1);
    }
  }

  /** Any damage confined to two adjacent bytes changes the register, whatever surrounds it. */
  lemma BurstChanges(p: Poly, seed: bv16, head: seq<byte>, a: byte, b: byte, c: byte, d: byte, tail: seq<byte>)
    requires (a, b) != (c, d)
    ensures Register(p, seed, head + [a, b] + tail) != Register(p, seed, head + [c, d] + tail)
  {
    hide Register, ByteStep;
    RegisterAppend2(p, seed, head, a, b);
    RegisterAppend2(p, seed, head, c, d);
    if Register(p, seed, head + [a, b]) == Register(p, seed, head + [c, d]) {
      PairInjective(p, Register(p, seed, head), a, b, c, d);
    }
    TailInjective(p, seed, head + [a, b], head + [c, d], tail);
  }

  lemma {:induction false} TailInjective(p: Poly, seed: bv16, x: seq<byte>, y: seq<byte>, tail: seq<byte>)
    requires Register(p, seed, x) != Register(p, seed, y)
    ensures Register(p, seed, x + tail) != Register(p, seed, y + tail)
  {
    hide ByteStep;
    if |tail| == 0 {
      assert x + tail == x && y + tail == y;
    } else {
      var init, b := tail[..|tail| - 1], tail[|tail| - 1];
      TailInjective(p, seed, x, y, init);
      assert (x + tail)[..|x + tail| - 1] == x + init;
      assert (y + tail)[..|y + tail| - 1] == y + init;
      ByteStepInjective(p, Register(p, seed, x + init), Register(p, seed, y + init), b);
    }
  }

  lemma ByteStepInjective(p: Poly, r: bv16, s: bv16, b: byte)
    requires r != s
    ensures ByteStep(p, r, b) != ByteStep(p, s, b)
  {
    hide Shift8;
    var x, y := r ^ (b as bv16), s ^ (b as bv16);
    assert x != y;
    Shift8Injective(p, x, y);
  }

  lemma Shift8Injective(p: Poly, x: bv16, y: bv16)
    requires x != y
    ensures Shift8(p, x) != Shift8(p, y)
  {
    hide Shift4;
    Shift4Injective(p, x, y);
    Shift4Injective(p, Shift4(p, x), Shift4(p, y));
  }

  lemma Shift4Injective(p: Poly, x: bv16, y: bv16)
    requires x != y
    ensures Shift4(p, x) != Shift4(p, y)
  {
    hide BitStep;
    var x1, y1 := BitStep(p, x), BitStep(p, y);
    var x2, y2 := BitStep(p, x1), BitStep(p, y1);
    var x3, y3 := BitStep(p, x2), BitStep(p, y2);
    BitStepInjective(p, x, y);
    BitStepInjective(p, x1, y1);
    BitStepInjective(p, x2, y2);
    BitStepInjective(p, x3, y3);
  }

  lemma BitStepInjective(p: Poly, x: bv16, y: bv16)
    requires x != y
    ensures BitStep(p, x) != BitStep(p, y)
  {
    hide Add, Half, Odd;
    TopBit(p, x);
    TopBit(p, y);
    if Odd(x) == Odd(y) {
      if Half(x) == Half(y) { Rebuild(x, y); }
      if Half(x) != Half(y) { AddDiffers(Half(x), Half(y), p); }
    }
  }

  /** The top bit tells whether the polynomial was added. */
  lemma TopBit(p: Poly, x: bv16)
    ensures BitStep(p, x) & 0x8000 != 0 <==> Odd(x)
  {
    hide Odd;
    HalfTop(x, p);
  }

  lemma HalfTop(x: bv16, p: bv16)
    requires p & 0x8000 != 0
    ensures Half(x) & 0x8000 == 0 && Add(Half(x), p) & 0x8000 != 0
  {
  }

  lemma Rebuild(x: bv16, y: bv16)
    requires Half(x) == Half(y) && Odd(x) == Odd(y)
    ensures x == y
  {
  }

  lemma AddDiffers(x: bv16, y: bv16, z: bv16)
    requires x != y
    ensures Add(x, z) != Add(y, z)
  {
  }

  /** Two data bytes are as wide as the register, so from one register they reach distinct registers. */
  lemma PairInjective(p: Poly, r: bv16, a: byte, b: byte, c: byte, d: byte)
    requires ByteStep(p, ByteStep(p, r, a), b) == ByteStep(p, ByteStep(p, r, c), d)
    ensures a == c && b == d
  {
    hide ByteStep;
    var u, v := ByteStep(p, r, a), ByteStep(p, r, c);
    SameSum(p, u, v, b, d);
    SameHigh(u, v, b, d);
    SameFirst(p, r, a, c);
  }

  lemma SameSum(p: Poly, u: bv16, v: bv16, b: byte, d: byte)
    requires ByteStep(p, u, b) == ByteStep(p, v, d)
    ensures u ^ (b as bv16) == v ^ (d as bv16)
  {
    hide Shift8;
    var x, y := u ^ (b as bv16), v ^ (d as bv16);
    if x != y { Shift8Injective(p, x, y); }
  }

  lemma SameHigh(u: bv16, v: bv16, b: byte, d: byte)
    requires u ^ (b as bv16) == v ^ (d as bv16)
    ensures (u ^ v) & 0xFF00 == 0
    ensures u == v ==> b == d
  {
  }

  lemma SameFirst(p: Poly, r: bv16, a: byte, c: byte)
    requires (ByteStep(p, r, a) ^ ByteStep(p, r, c)) & 0xFF00 == 0
    ensures a == c
  {
    hide Shift8;
    Back8(p, r ^ (a as bv16), r ^ (c as bv16));
    SameLow(r, a, c);
  }

  lemma SameLow(r: bv16, a: byte, c: byte)
    requires ((r ^ (a as bv16)) ^ (r ^ (c as bv16))) & 0xFF == 0
    ensures a == c
  {
  }

  /** One bit step backwards: agreement on a mask with the top bit moves up and gains bit 0. */
  lemma Back(p: Poly, x: bv16, y: bv16, mask: bv16, up: bv16)
    requires mask & 0x8000 != 0 && up == (mask << 1) | 1
    requires (BitStep(p, x) ^ BitStep(p, y)) & mask == 0
    ensures (x ^ y) & up == 0
  {
  }

  lemma Back4(p: Poly, x: bv16, y: bv16, m: bv16, m1: bv16, m2: bv16, m3: bv16, m4: bv16)
    requires m & 0x8000 != 0 && m1 & 0x8000 != 0 && m2 & 0x8000 != 0 && m3 & 0x8000 != 0
    requires m1 == (m << 1) | 1 && m2 == (m1 << 1) | 1 && m3 == (m2 << 1) | 1 && m4 == (m3 << 1) | 1
    requires (Shift4(p, x) ^ Shift4(p, y)) & m == 0
    ensures (x ^ y) & m4 == 0
  {
    hide BitStep;
    var x1, y1 := BitStep(p, x), BitStep(p, y);
    var x2, y2 := BitStep(p, x1), BitStep(p, y1);
    Back(p, BitStep(p, x2), BitStep(p, y2), m, m1);
    Back(p, x2, y2, m1, m2);
    Back(p, x1, y1, m2, m3);
    Back(p, x, y, m3, m4);
  }

  lemma Back8(p: Poly, x: bv16, y: bv16)
    requires (Shift8(p, x) ^ Shift8(p, y)) & 0xFF00 == 0
    ensures (x ^ y) & 0xFF == 0
  {
    hide Shift4;
    Back4(p, Shift4(p, x), Shift4(p, y), 0xFF00, 0xFE01, 0xFC03, 0xF807, 0xF00F);
    Back4(p, x, y, 0xF00F, 0xE01F, 0xC03F, 0x807F, 0x00FF);
  }
}
