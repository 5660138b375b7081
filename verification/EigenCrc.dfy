/** `CRC16` of eigen.c: a table for four bits at a time, against the bit-serial CRC with polynomial 0xA001. */
module EigenCrc {
  import opened Bytes
  import opened ReflectedCrc

  const POLY: Poly := 0xA001

  /** The part of the register that the next four steps leave. */
  function High(x: bv16): bv16 {
    x >> 4
  }

  function Crc(seed: bv16, data: seq<byte>): bv16 {
    Register(POLY, seed, data)
  }

  // ---------- The table ----------

  function Table(): (t: seq<bv16>)
    ensures |t| == 16
  {
    [0x0000, 0xCC01, 0xD801, 0x1400, 0xF001, 0x3C00, 0x2800, 0xE401,
     0xA001, 0x6C00, 0x7800, 0xB401, 0x5000, 0x9C01, 0x8801, 0x4400]
  }

  function Entry(x: bv16): bv16 {
    Table()[((x & 15) as bv4) as int]
  }

  /** Four bits of the data byte; the index takes the low four bits of the sum. */
  function NibbleStep(r: bv16, b: bv16): bv16 {
    Shifted(Entry(Add(b, r)), r)
  }

  function Shifted(entry: bv16, r: bv16): bv16 {
    Add(entry, High(r))
  }

  /** The loop of `CRC16`. */
  method Calc(seed: bv16, data: seq<byte>) returns (crc: bv16)
    ensures crc == Crc(seed, data)
  {
    hide ByteStep, NibbleStep;
    crc := seed;
    for i := 0 to |data|
      invariant crc == Crc(seed, data[..i])
    {
      var ch := data[i] as bv16;
      NibblesAreByte(crc, data[i]);
      assert data[..i + 1][..i] == data[..i];
      crc := NibbleStep(crc, ch);
      crc := NibbleStep(crc, High(ch));
    }
    assert data[..|data|] == data;
  }

  /** Two table steps are the eight bit steps of the definition. */
  lemma NibblesAreByte(r: bv16, b: byte)
    ensures NibbleStep(NibbleStep(r, b as bv16), High(b as bv16)) == ByteStep(POLY, r, b)
  {
    hide Add, High, Entry, Shift4, Shifted, NibbleStep, ByteStep;
    var first := Shift4(POLY, Add(r, b as bv16));
    ByteStepIs(r, b);
    FirstNibble(r, b as bv16);
    SameTail(Entry(first), r, b);
    NibbleIs(NibbleStep(r, b as bv16), High(b as bv16));
    EntryIsShift4(first);
  }

  lemma ByteStepIs(r: bv16, b: byte)
    ensures ByteStep(POLY, r, b) == Shift4(POLY, Shift4(POLY, Add(r, b as bv16)))
  {
    hide Shift4;
  }

  lemma NibbleIs(r: bv16, ch: bv16)
    ensures NibbleStep(r, ch) == Shifted(Entry(Add(r, ch)), r)
  {
    hide Add, High, Entry, Shifted;
    Commute(r, ch);
  }

  /** With the high half of the byte added, one table step is where four bit steps are, */
  lemma FirstNibble(r: bv16, ch: bv16)
    ensures Add(NibbleStep(r, ch), High(ch)) == Shift4(POLY, Add(r, ch))
  {
    hide Add, High, Entry, Shift4, Shifted, NibbleStep;
    NibbleIs(r, ch);
    Sum(Entry(Add(r, ch)), r, ch);
    EntryIsShift4(Add(r, ch));
  }

  lemma Sum(e: bv16, r: bv16, ch: bv16)
    ensures Add(Shifted(e, r), High(ch)) == Shifted(e, Add(r, ch))
  {
    hide Add, High;
    HighAdds(r, ch);
    Associative(e, High(r), High(ch));
  }

  lemma HighAdds(x: bv16, y: bv16)
    ensures High(Add(x, y)) == Add(High(x), High(y))
  {
  }

  /** and without it, the bits they differ in are shifted out by the next one. */
  lemma SameTail(f: bv16, r: bv16, b: byte)
    ensures Shifted(f, NibbleStep(r, b as bv16)) == Shifted(f, Shift4(POLY, Add(r, b as bv16)))
  {
    hide Add, High, Entry, Shift4, Shifted, NibbleStep;
    var ch := b as bv16;
    NibbleIs(r, ch);
    EntryIsShift4(Add(r, ch));
    Tail(f, Entry(Add(r, ch)), r, b);
  }

  lemma Tail(f: bv16, e: bv16, r: bv16, b: byte)
    ensures Shifted(f, Shifted(e, r)) == Shifted(f, Shifted(e, Add(r, b as bv16)))
  {
    hide Add, High;
    var ch := b as bv16;
    HighAdds(r, ch);
    Associative(e, High(r), High(ch));
    HighAdds(Add(e, High(r)), High(ch));
    Vanishes(High(Add(e, High(r))), b);
  }

  lemma Vanishes(x: bv16, b: byte)
    ensures Add(x, High(High(b as bv16))) == x
  {
  }

  /** A table entry stands for four bit steps of its index. */
  lemma EntryIsShift4(x: bv16)
    ensures Shifted(Entry(x), x) == Shift4(POLY, x)
  {
    LowEntry(x);
    hide Entry, Shift4, Add, High;
    SplitNibble(x);
    HighNibble(x);
    Shift4Adds(POLY, x & 15, x & 0xFFF0);
  }

  function FourSteps(r: bv16): bv16 {
    Shift4(POLY, r)
  }

  lemma TableIsShift4()
    ensures Table() == Sample(FourSteps, 0)
  {
  }

  lemma LowEntry(x: bv16)
    ensures Entry(x) == Shift4(POLY, x & 15)
  {
    hide Table, Shift4;
    TableIsShift4();
    SampleAt(FourSteps, 0, (x & 15) as bv4);
    LowNibble(x);
  }

  lemma LowNibble(x: bv16)
    ensures 0 | (((x & 15) as bv4) as bv16) == x & 15
  {
  }

  lemma SplitNibble(x: bv16)
    ensures x == Add(x & 15, x & 0xFFF0)
  {
  }

  lemma HighNibble(x: bv16)
    ensures var y := x & 0xFFF0;
            !Odd(y) && !Odd(Half(y)) && !Odd(Half(Half(y))) && !Odd(Half(Half(Half(y)))) &&
            Half(Half(Half(Half(y)))) == High(x)
  {
  }

  /** The catalogued check value of this CRC, seeded with 0xFFFF: that of the nine digits "123456789". */
  lemma CheckValue()
    ensures Crc(0xFFFF, [0x31, 0x32, 0x33, 0x34, 0x35, 0x36, 0x37, 0x38, 0x39]) == 0x4B37
  {
    var digits: seq<byte> := [0x31, 0x32, 0x33, 0x34, 0x35, 0x36, 0x37, 0x38, 0x39];
    var r: seq<bv16> := [0xFFFF, 0x947E, 0xF595, 0x7A75, 0x30BA, 0xA471, 0x32E4, 0x9D73, 0x37DD, 0x4B37];
    StepsAlong();
    hide ByteStep;
    RegistersAlong(POLY, 0xFFFF, digits, r, 9);
    assert digits[..9] == digits;
  }

  lemma StepsAlong()
    ensures ByteStep(POLY, 0xFFFF, 0x31) == 0x947E
    ensures ByteStep(POLY, 0x947E, 0x32) == 0xF595
    ensures ByteStep(POLY, 0xF595, 0x33) == 0x7A75
    ensures ByteStep(POLY, 0x7A75, 0x34) == 0x30BA
    ensures ByteStep(POLY, 0x30BA, 0x35) == 0xA471
    ensures ByteStep(POLY, 0xA471, 0x36) == 0x32E4
    ensures ByteStep(POLY, 0x32E4, 0x37) == 0x9D73
    ensures ByteStep(POLY, 0x9D73, 0x38) == 0x37DD
    ensures ByteStep(POLY, 0x37DD, 0x39) == 0x4B37
  {
  }
}
