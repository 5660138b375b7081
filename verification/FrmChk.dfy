/** The header checksum `frm_chk` of unisoc.c, against the one's-complement sum of RFC 1071, section 1. */
module FrmChk {
  import opened Bytes

  function Word(x: byte, y: byte, big: bool): (w: int)
    ensures 0 <= w < 0x1_0000
  {
    if big then Le16(y, x) else Le16(x, y)
  }

  /** The value of the item at the front: a word, or the last byte of an odd buffer. */
  function Item(src: seq<byte>, big: bool): (w: int)
    requires |src| > 0
    ensures 0 <= w < 0x1_0000
  {
    if |src| == 1 then Le16(src[0], 0) else Word(src[0], src[1], big)
  }

  function Rest(src: seq<byte>): (r: seq<byte>)
    requires |src| > 0
    ensures |r| < |src|
  {
    if |src| == 1 then [] else src[2..]
  }

  /** The plain sum of the items. */
  function Sum(src: seq<byte>, big: bool): (n: nat)
    decreases |src|
  {
    if |src| == 0 then 0 else Item(src, big) + Sum(Rest(src), big)
  }

  /** `(sum >> 16) + (sum & 0xFFFF)` and one more carry, in an `unsigned short`. */
  function Fold(sum: nat): (r: nat) {
    var once := sum / 0x1_0000 + sum % 0x1_0000;
    (once + once / 0x1_0000) % 0x1_0000
  }

  /** The values of an `unsigned int`. */
  const WIDTH: nat := 0x1_0000_0000

  function Check(src: seq<byte>, big: bool): (r: nat) {
    0xFFFF - Fold(Sum(src, big) % WIDTH)
  }

  /** `frm_chk`; the accumulator is an `unsigned int`. */
  method Calc(src: seq<byte>, big: bool) returns (chk: nat)
    ensures chk == Check(src, big)
  {
    hide Le16, Word, Sum, Fold;
    var sum, i := 0, 0;
    ghost var total: nat := 0;
    assert src[0..] == src;
    while |src| - i > 1
      invariant i <= |src| && total + Sum(src[i..], big) == Sum(src, big)
      invariant sum == total % WIDTH
    {
      SumStep(src, i, big);
      var w := Word(src[i], src[i + 1], big);
      AddWraps(total, w);
      sum, total := (sum + w) % WIDTH, total + w;
      i := i + 2;
    }
    if |src| - i == 1 {
      var w := Le16(src[i], 0);
      SumStep(src, i, big);
      AddWraps(total, w);
      sum, total := (sum + w) % WIDTH, total + w;
    }
    SumStep(src, |src|, big);
    FoldSteps(sum);
    sum := sum / 0x1_0000 + sum % 0x1_0000;
    sum := sum + sum / 0x1_0000;
    chk := 0xFFFF - sum % 0x1_0000;
  }

  lemma FoldSteps(sum: nat)
    ensures var once := sum / 0x1_0000 + sum % 0x1_0000; (once + once / 0x1_0000) % 0x1_0000 == Fold(sum)
  {
  }

  lemma SumStep(src: seq<byte>, i: nat, big: bool)
    requires i <= |src|
    ensures Sum(src[i..], big) ==
            if i == |src| then 0
            else if i + 1 == |src| then Le16(src[i], 0)
            else Word(src[i], src[i + 1], big) + Sum(src[i + 2..], big)
  {
    hide Le16, Word;
    if i + 1 < |src| { assert src[i..][2..] == src[i + 2..]; }
  }

  lemma AddWraps(total: nat, w: nat)
    ensures (total % WIDTH + w) % WIDTH == (total + w) % WIDTH
  {
  }

  // ---------- One's-complement arithmetic ----------

  /** Sixteen-bit addition with end-around carry. */
  function OnesAdd(a: int, b: int): int {
    if a + b > 0xFFFF then a + b - 0xFFFF else a + b
  }

  /** RFC 1071, section 1: pairs of bytes, the last one padded with a zero byte behind it. */
  function Words(src: seq<byte>, big: bool): (ws: seq<int>)
    decreases |src|
  {
    if |src| == 0 then []
    else if |src| == 1 then [Word(src[0], 0, big)]
    else [Word(src[0], src[1], big)] + Words(src[2..], big)
  }

  function OnesSum(ws: seq<int>): int {
    if |ws| == 0 then 0 else OnesAdd(ws[0], OnesSum(ws[1..]))
  }

  /** The sixteen-bit one's-complement value of a sum: zero only for zero. */
  function Rep(n: nat): (r: nat)
    ensures r <= 0xFFFF
  {
    if n == 0 then 0 else (n - 1) % 0xFFFF + 1
  }

  lemma FoldIsRep(n: nat)
    requires n < WIDTH
    ensures Fold(n) == Rep(n)
  {
    hide Rep, Fold;
    var h, once := n / 0x1_0000, n / 0x1_0000 + n % 0x1_0000;
    assert n == 0xFFFF * h + once;
    LastCarry(n, once);
    if once > 0 { RepOfMultiple(h, once); }
  }

  /** After the first folding step at most one carry is left. */
  lemma LastCarry(n: nat, once: nat)
    requires n < WIDTH && once == n / 0x1_0000 + n % 0x1_0000
    ensures Fold(n) == Rep(once) && (once == 0 ==> n == 0)
  {
  }

  lemma RepOfMultiple(h: nat, m: nat)
    requires m > 0
    ensures Rep(0xFFFF * h + m) == Rep(m)
  {
    var q, r := (m - 1) / 0xFFFF, (m - 1) % 0xFFFF;
    Remainder(h + q, r);
    assert 0xFFFF * h + m - 1 == 0xFFFF * (h + q) + r;
  }

  lemma Remainder(q: nat, r: nat)
    requires r < 0xFFFF
    ensures (0xFFFF * q + r) % 0xFFFF == r
  {
  }

  lemma OnesAddIsRep(a: nat, n: nat)
    requires a <= 0xFFFF
    ensures OnesAdd(a, Rep(n)) == Rep(a + n)
  {
    if n > 0 {
      var q := (n - 1) / 0xFFFF;
      assert a + n == 0xFFFF * q + (a + Rep(n));
      RepOfMultiple(q, a + Rep(n));
    }
  }

  /** What the code adds less than the standard: its last odd byte is always the low half of a word. */
  function Shortfall(src: seq<byte>, big: bool): (n: nat) {
    if big && |src| % 2 == 1 then 255 * (src[|src| - 1] as int) else 0
  }

  lemma {:induction false} OnesSumIsRep(src: seq<byte>, big: bool)
    ensures OnesSum(Words(src, big)) == Rep(Sum(src, big) + Shortfall(src, big))
    decreases |src|
  {
    hide Le16, Rep;
    RepZero();
    if |src| == 1 {
      LastWord(src[0], big);
      OnesAddIsRep(Word(src[0], 0, big), 0);
      assert Sum(Rest(src), big) == 0 && Words(src, big)[1..] == [];
    } else if |src| > 1 {
      OnesSumIsRep(src[2..], big);
      assert Words(src, big)[1..] == Words(src[2..], big);
      OnesAddIsRep(Word(src[0], src[1], big), Sum(src[2..], big) + Shortfall(src[2..], big));
    }
  }

  lemma RepZero()
    ensures Rep(0) == 0
  {
  }

  lemma LastWord(x: byte, big: bool)
    ensures Word(x, 0, big) == Le16(x, 0) + if big then 255 * (x as int) else 0
  {
  }

  lemma {:induction false} SumBound(src: seq<byte>, big: bool)
    ensures Sum(src, big) <= 0xFFFF * ((|src| + 1) / 2)
    decreases |src|
  {
    if |src| > 0 { SumBound(Rest(src), big); }
  }

  /** Sums that differ by a positive number below 65535 have different one's-complement values. */
  lemma RepDiffers(n: nat, d: nat)
    requires 0 < d < 0xFFFF
    ensures Rep(n) != Rep(n + d)
  {
    if n > 0 {
      var q, r := (n - 1) / 0xFFFF, (n - 1) % 0xFFFF;
      assert n == 0xFFFF * q + (r + 1) && n + d == 0xFFFF * q + (r + 1 + d);
      RepOfMultiple(q, r + 1);
      RepOfMultiple(q, r + 1 + d);
    }
  }

  /**
   Up to 65537 words the accumulator does not overflow, and the result is the checksum of RFC 1071
   except for buffers of odd length in big-endian order that do not end in a zero byte.
   */
  lemma CheckIsOnesComplement(src: seq<byte>, big: bool)
    requires |src| <= 2 * 65537
    ensures Sum(src, big) < WIDTH
    ensures Check(src, big) == 0xFFFF - OnesSum(Words(src, big))
            <==> !big || |src| % 2 == 0 || src[|src| - 1] == 0
  {
    hide Fold, Rep, Sum, OnesSum, Words;
    SumBound(src, big);
    FoldIsRep(Sum(src, big));
    OnesSumIsRep(src, big);
    if big && |src| % 2 == 1 {
      ByteValue(src[|src| - 1]);
      if src[|src| - 1] != 0 { RepDiffers(Sum(src, big), Shortfall(src, big)); }
    }
  }

  /** The shortest exception: a single byte is padded on the wrong side. */
  lemma OddBigEndianDiffers()
    ensures Check([1], true) == 0xFFFE && 0xFFFF - OnesSum(Words([1], true)) == 0xFEFF
  {
    var one: seq<byte> := [1];
    assert Rest(one) == [] && Words(one, true)[1..] == [];
  }

  lemma ByteValue(x: byte)
    ensures 0 <= x as int < 256 && (x as int == 0 <==> x == 0)
  {
  }

  // ---------- The checksum field of a header ----------

  /** A header whose last word is the checksum. */
  predicate Passes(header: seq<byte>) {
    Check(header, false) == 0
  }

  function Sealed(body: seq<byte>): (header: seq<byte>)
    requires |body| % 2 == 0
    ensures |header| == |body| + 2 && header[..|body|] == body
  {
    body + Le16Bytes(Check(body + [0, 0], false))
  }

  lemma {:induction false} SumAppendWord(body: seq<byte>, x: byte, y: byte)
    requires |body| % 2 == 0
    ensures Sum(body + [x, y], false) == Sum(body, false) + Le16(x, y)
    decreases |body|
  {
    hide Le16;
    var whole := body + [x, y];
    if |body| == 0 {
      assert whole == [x, y] && Rest(whole) == [];
    } else {
      assert Rest(whole) == Rest(body) + [x, y];
      SumAppendWord(Rest(body), x, y);
    }
  }

  /**
   A header passes exactly when its field holds the checksum of the header with that field zero; the two
   forms of one's-complement zero count as the same.
   */
  lemma PassesExactlyWhen(body: seq<byte>, x: byte, y: byte)
    requires |body| % 2 == 0 && |body| <= 2 * 65536
    ensures var chk := Check(body + [0, 0], false);
            Passes(body + [x, y]) <==> Le16(x, y) == chk || (Le16(x, y) == 0xFFFF && chk == 0)
  {
    hide Le16, Fold, Rep, Sum;
    var s, c := Sum(body, false), Le16(x, y);
    SumAppendWord(body, x, y);
    SumAppendWord(body, 0, 0);
    ZeroWord();
    SumBound(body + [x, y], false);
    FoldIsRep(s);
    FoldIsRep(s + c);
    OnesAddIsRep(c, s);
  }

  lemma ZeroWord()
    ensures Le16(0, 0) == 0
  {
  }

  lemma SealedPasses(body: seq<byte>)
    requires |body| % 2 == 0 && |body| <= 2 * 65536
    ensures Passes(Sealed(body))
  {
    var f := Le16Bytes(Check(body + [0, 0], false));
    assert f == [f[0], f[1]];
    PassesExactlyWhen(body, f[0], f[1]);
  }

  // ---------- What passes, and what damage does ----------

  lemma RepIsFullWhen(n: nat)
    ensures Rep(n) == 0xFFFF <==> n > 0 && n % 0xFFFF == 0
  {
    if n > 0 {
      var q, r := (n - 1) / 0xFFFF, (n - 1) % 0xFFFF;
      assert n == 0xFFFF * q + (r + 1);
      if r == 0xFFFE {
        assert n == 0xFFFF * (q + 1);
        MultipleOf(q + 1, 0);
      } else {
        MultipleOf(q, r + 1);
      }
    }
  }

  lemma MultipleOf(q: nat, r: nat)
    requires r < 0xFFFF
    ensures (0xFFFF * q + r) % 0xFFFF == r
  {
    Remainder(q, r);
  }

  /** A header passes exactly when its words add up to ones, in the arithmetic of RFC 1071. */
  lemma PassesMeansOnes(header: seq<byte>)
    requires |header| <= 2 * 65537
    ensures Passes(header) <==> OnesSum(Words(header, false)) == 0xFFFF
  {
    hide Sum, OnesSum, Words, Check;
    CheckIsOnesComplement(header, false);
  }

  lemma PassesMeansMultiple(header: seq<byte>)
    requires |header| <= 2 * 65537
    ensures Passes(header) <==> Sum(header, false) > 0 && Sum(header, false) % 0xFFFF == 0
  {
    hide Sum, Fold, Rep;
    SumBound(header, false);
    FoldIsRep(Sum(header, false));
    RepIsFullWhen(Sum(header, false));
  }

  lemma {:induction false} SumSplits(a: seq<byte>, b: seq<byte>)
    requires |a| % 2 == 0
    ensures Sum(a + b, false) == Sum(a, false) + Sum(b, false)
    decreases |a|
  {
    hide Le16;
    if |a| == 0 {
      assert a + b == b;
    } else {
      assert Rest(a + b) == Rest(a) + b && Item(a + b, false) == Item(a, false);
      SumSplits(Rest(a), b);
    }
  }

  lemma SumWithWord(a: seq<byte>, x: byte, y: byte, b: seq<byte>)
    requires |a| % 2 == 0
    ensures Sum(a + [x, y] + b, false) == Sum(a, false) + Le16(x, y) + Sum(b, false)
  {
    hide Sum, Le16;
    SumAppendWord(a, x, y);
    SumSplits(a + [x, y], b);
  }

  /** A word changed to one of another one's-complement meaning makes a good header fail. */
  lemma DamagedWordFails(a: seq<byte>, x: byte, y: byte, b: seq<byte>, x': byte, y': byte)
    requires |a| % 2 == 0 && |a| + 2 + |b| <= 2 * 65537
    requires Passes(a + [x, y] + b) && (Le16(x', y') - Le16(x, y)) % 0xFFFF != 0
    ensures !Passes(a + [x', y'] + b)
  {
    hide Sum, Le16, Passes;
    SumWithWord(a, x, y, b);
    SumWithWord(a, x', y', b);
    PassesMeansMultiple(a + [x, y] + b);
    PassesMeansMultiple(a + [x', y'] + b);
    DifferenceOfMultiples(Sum(a + [x, y] + b, false), Sum(a + [x', y'] + b, false));
  }

  lemma DifferenceOfMultiples(m: nat, n: nat)
    requires m % 0xFFFF == 0 && (n - m) % 0xFFFF != 0
    ensures n % 0xFFFF != 0
  {
  }
}
