/**
 The FCS of qshrink4.c: the table `crc_16_l_table` and the byte loop `crc_16_l_calc`, against the
 bit-serial definition of the reflected CRC with polynomial 0x8408.
 */
module Crc16 {
  import opened Bytes
  import opened ReflectedCrc

  const POLY: Poly := 0x8408
  const SEED: bv16 := 0xFFFF
  const RESIDUE: bv16 := 0xF0B8
  const GOOD_FCS: bv16 := 0x0F47

  /** The transmitted check sequence: the complement of the register. */
  function Fcs(data: seq<byte>): bv16 {
    !Register(POLY, SEED, data)
  }

  /** The check sequence as it goes on the wire, low byte first. */
  function FcsBytes(data: seq<byte>): (s: seq<byte>)
    ensures |s| == 2
  {
    WireBytes(Fcs(data))
  }

  // ---------- The table ----------

  /** Row `h` of the table: the entries h * 16 to h * 16 + 15. */
  function Row(h: bv4): (r: seq<bv16>)
    ensures |r| == 16
  {
    match h
    case 0 => [
      0x0000, 0x1189, 0x2312, 0x329b, 0x4624, 0x57ad, 0x6536, 0x74bf,
      0x8c48, 0x9dc1, 0xaf5a, 0xbed3, 0xca6c, 0xdbe5, 0xe97e, 0xf8f7]
    case 1 => [
      0x1081, 0x0108, 0x3393, 0x221a, 0x56a5, 0x472c, 0x75b7, 0x643e,
      0x9cc9, 0x8d40, 0xbfdb, 0xae52, 0xdaed, 0xcb64, 0xf9ff, 0xe876]
    case 2 => [
      0x2102, 0x308b, 0x0210, 0x1399, 0x6726, 0x76af, 0x4434, 0x55bd,
      0xad4a, 0xbcc3, 0x8e58, 0x9fd1, 0xeb6e, 0xfae7, 0xc87c, 0xd9f5]
    case 3 => [
      0x3183, 0x200a, 0x1291, 0x0318, 0x77a7, 0x662e, 0x54b5, 0x453c,
      0xbdcb, 0xac42, 0x9ed9, 0x8f50, 0xfbef, 0xea66, 0xd8fd, 0xc974]
    case 4 => [
      0x4204, 0x538d, 0x6116, 0x709f, 0x0420, 0x15a9, 0x2732, 0x36bb,
      0xce4c, 0xdfc5, 0xed5e, 0xfcd7, 0x8868, 0x99e1, 0xab7a, 0xbaf3]
    case 5 => [
      0x5285, 0x430c, 0x7197, 0x601e, 0x14a1, 0x0528, 0x37b3, 0x263a,
      0xdecd, 0xcf44, 0xfddf, 0xec56, 0x98e9, 0x8960, 0xbbfb, 0xaa72]
    case 6 => [
      0x6306, 0x728f, 0x4014, 0x519d, 0x2522, 0x34ab, 0x0630, 0x17b9,
      0xef4e, 0xfec7, 0xcc5c, 0xddd5, 0xa96a, 0xb8e3, 0x8a78, 0x9bf1]
    case 7 => [
      0x7387, 0x620e, 0x5095, 0x411c, 0x35a3, 0x242a, 0x16b1, 0x0738,
      0xffcf, 0xee46, 0xdcdd, 0xcd54, 0xb9eb, 0xa862, 0x9af9, 0x8b70]
    case 8 => [
      0x8408, 0x9581, 0xa71a, 0xb693, 0xc22c, 0xd3a5, 0xe13e, 0xf0b7,
      0x0840, 0x19c9, 0x2b52, 0x3adb, 0x4e64, 0x5fed, 0x6d76, 0x7cff]
    case 9 => [
      0x9489, 0x8500, 0xb79b, 0xa612, 0xd2ad, 0xc324, 0xf1bf, 0xe036,
      0x18c1, 0x0948, 0x3bd3, 0x2a5a, 0x5ee5, 0x4f6c, 0x7df7, 0x6c7e]
    case 10 => [
      0xa50a, 0xb483, 0x8618, 0x9791, 0xe32e, 0xf2a7, 0xc03c, 0xd1b5,
      0x2942, 0x38cb, 0x0a50, 0x1bd9, 0x6f66, 0x7eef, 0x4c74, 0x5dfd]
    case 11 => [
      0xb58b, 0xa402, 0x9699, 0x8710, 0xf3af, 0xe226, 0xd0bd, 0xc134,
      0x39c3, 0x284a, 0x1ad1, 0x0b58, 0x7fe7, 0x6e6e, 0x5cf5, 0x4d7c]
    case 12 => [
      0xc60c, 0xd785, 0xe51e, 0xf497, 0x8028, 0x91a1, 0xa33a, 0xb2b3,
      0x4a44, 0x5bcd, 0x6956, 0x78df, 0x0c60, 0x1de9, 0x2f72, 0x3efb]
    case 13 => [
      0xd68d, 0xc704, 0xf59f, 0xe416, 0x90a9, 0x8120, 0xb3bb, 0xa232,
      0x5ac5, 0x4b4c, 0x79d7, 0x685e, 0x1ce1, 0x0d68, 0x3ff3, 0x2e7a]
    case 14 => [
      0xe70e, 0xf687, 0xc41c, 0xd595, 0xa12a, 0xb0a3, 0x8238, 0x93b1,
      0x6b46, 0x7acf, 0x4854, 0x59dd, 0x2d62, 0x3ceb, 0x0e70, 0x1ff9]
    case _ => [
      0xf78f, 0xe606, 0xd49d, 0xc514, 0xb1ab, 0xa022, 0x92b9, 0x8330,
      0x7bc7, 0x6a4e, 0x58d5, 0x495c, 0x3de3, 0x2c6a, 0x1ef1, 0x0f78]
  }

  function Entry(k: byte): bv16 {
    Row((k >> 4) as bv4)[((k & 15) as bv4) as int]
  }

  /** The low byte of the register picks the entry. */
  function TableStep(r: bv16, b: byte): bv16 {
    Add(Entry(Lo(r ^ (b as bv16))), r >> 8)
  }

  /** `crc_16_l_calc` over whole bytes: the table loop computes the bit-serial check sequence. */
  method Calc(buf: array<byte>, len: nat) returns (crc: bv16)
    requires len <= buf.Length
    ensures crc == Fcs(buf[..len])
  {
    hide ByteStep, TableStep;
    crc := SEED;
    for i := 0 to len
      invariant crc == Register(POLY, SEED, buf[..i])
    {
      TableStepIsByteStep(crc, buf[i]);
      assert buf[..i + 1][..i] == buf[..i];
      crc := TableStep(crc, buf[i]);
    }
    crc := !crc;
  }

  /** The table loop and the bit-serial definition agree on every register and byte. */
  lemma TableStepIsByteStep(r: bv16, b: byte)
    ensures TableStep(r, b) == ByteStep(POLY, r, b)
  {
    hide Entry, Shift8, Lo, Add;
    HighByte(r, b);
    TableAt(r ^ (b as bv16), r >> 8);
  }

  lemma HighByte(r: bv16, b: byte)
    ensures (r ^ (b as bv16)) >> 8 == r >> 8
  {
  }

  lemma LowByte(x: bv16)
    ensures Lo(x) as bv16 == x & 0xFF
  {
  }

  lemma TableAt(x: bv16, high: bv16)
    requires x >> 8 == high
    ensures Add(Entry(Lo(x)), high) == Shift8(POLY, x)
  {
    HighIs(x, high);
    LowEntry(x);
    hide Entry, Shift8, Lo, Add;
    Shift8Adds(POLY, x & 0xFF, x & 0xFF00);
  }

  lemma HighIs(x: bv16, high: bv16)
    requires x >> 8 == high
    ensures x == Add(x & 0xFF, x & 0xFF00) && (x & 0xFF00) >> 8 == high && (x & 0xFF00) & 0xFF == 0
  {
  }

  lemma LowEntry(x: bv16)
    ensures Entry(Lo(x)) == Shift8(POLY, x & 0xFF)
  {
    hide Entry, Shift8, Lo;
    LowByte(x);
    EntryIsShift8(Lo(x));
  }

  /** Every table entry is eight bit steps of its index. */
  lemma EntryIsShift8(k: byte)
    ensures Entry(k) == Shift8(POLY, k as bv16)
  {
    var h, lo := (k >> 4) as bv4, (k & 15) as bv4;
    var base := (h as bv16) << 4;
    assert base | (lo as bv16) == k as bv16;
    RowIsShift8(h);
    SampleAt(EightSteps, base, lo);
  }

  function EightSteps(r: bv16): bv16 {
    Shift8(POLY, r)
  }

  lemma RowIsShift8(h: bv4)
    ensures Row(h) == Sample(EightSteps, (h as bv16) << 4)
  {
  }

  // ---------- The receiver's check ----------

  /** A message with its own check sequence always recomputes to 0x0F47, and no other two bytes do. */
  lemma ReceiverCheck(data: seq<byte>, a: byte, b: byte)
    ensures Fcs(data + [a, b]) == GOOD_FCS <==> [a, b] == FcsBytes(data)
  {
    hide Register, ByteStep, FcsBytes;
    var s := FcsBytes(data);
    assert s == [s[0], s[1]];
    Complement(Register(POLY, SEED, data + [a, b]));
    OwnFcs(data);
    if Register(POLY, SEED, data + [a, b]) == RESIDUE {
      RegisterAppend2(POLY, SEED, data, a, b);
      RegisterAppend2(POLY, SEED, data, s[0], s[1]);
      PairInjective(POLY, Register(POLY, SEED, data), a, b, s[0], s[1]);
    }
  }

  lemma Complement(r: bv16)
    ensures !r == GOOD_FCS <==> r == RESIDUE
  {
  }

  lemma OwnFcs(data: seq<byte>)
    ensures Register(POLY, SEED, data + FcsBytes(data)) == RESIDUE
  {
    hide Register, ByteStep;
    var s := FcsBytes(data);
    assert s == [s[0], s[1]];
    RegisterAppend2(POLY, SEED, data, s[0], s[1]);
    Residue(Register(POLY, SEED, data));
  }

  lemma Residue(r: bv16)
    ensures ByteStep(POLY, ByteStep(POLY, r, (!r & 0xFF) as byte), ((!r >> 8) & 0xFF) as byte) == RESIDUE
  {
  }

  /** Any damage confined to two adjacent bytes changes the check sequence. */
  lemma BurstChangesFcs(head: seq<byte>, a: byte, b: byte, c: byte, d: byte, tail: seq<byte>)
    requires (a, b) != (c, d)
    ensures Fcs(head + [a, b] + tail) != Fcs(head + [c, d] + tail)
  {
    hide Register;
    BurstChanges(POLY, SEED, head, a, b, c, d, tail);
    ComplementDiffers(Register(POLY, SEED, head + [a, b] + tail), Register(POLY, SEED, head + [c, d] + tail));
  }

  lemma ComplementDiffers(r: bv16, s: bv16)
    requires r != s
    ensures !r != !s
  {
  }

  /** The catalogued check value of this CRC: the sequence of the nine digits "123456789". */
  lemma CheckValue()
    ensures Fcs([0x31, 0x32, 0x33, 0x34, 0x35, 0x36, 0x37, 0x38, 0x39]) == 0x906E
  {
    var digits: seq<byte> := [0x31, 0x32, 0x33, 0x34, 0x35, 0x36, 0x37, 0x38, 0x39];
    var r: seq<bv16> := [0xFFFF, 0x2F8D, 0x4D53, 0x634B, 0x8B13, 0x44BF, 0x198D, 0x1AC8, 0xF795, 0x6F91];
    StepsAlong();
    hide ByteStep;
    RegistersAlong(POLY, SEED, digits, r, 9);
    assert digits[..9] == digits;
  }

  lemma StepsAlong()
    ensures ByteStep(POLY, 0xFFFF, 0x31) == 0x2F8D
    ensures ByteStep(POLY, 0x2F8D, 0x32) == 0x4D53
    ensures ByteStep(POLY, 0x4D53, 0x33) == 0x634B
    ensures ByteStep(POLY, 0x634B, 0x34) == 0x8B13
    ensures ByteStep(POLY, 0x8B13, 0x35) == 0x44BF
    ensures ByteStep(POLY, 0x44BF, 0x36) == 0x198D
    ensures ByteStep(POLY, 0x198D, 0x37) == 0x1AC8
    ensures ByteStep(POLY, 0x1AC8, 0x38) == 0xF795
    ensures ByteStep(POLY, 0xF795, 0x39) == 0x6F91
  {
  }
}
