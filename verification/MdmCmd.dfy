/** `mdm_send_cmd` of mdm.c: a configuration buffer is cut into commands and written one by one. */
module MdmCmd {
  import opened Bytes
  import opened DiagSend

  /**
   The buffer lies in memory at `base`. The C code may read the byte before it, and up to three bytes
   behind it, so the memory around the buffer is part of the model.
   */
  datatype Buffer = Buffer(mem: seq<byte>, base: nat, size: nat) {
    ghost predicate Valid() {
      0 < base && base + size + 3 <= |mem|
    }

    function At(k: int): byte
      requires Valid() && -1 <= k <= size + 2
    {
      mem[base + k]
    }

    function Bytes(from: nat, to: nat): (s: seq<byte>)
      requires Valid() && from <= to <= size + 1
      ensures |s| == to - from
    {
      mem[base + from..base + to]
    }
  }

  // ---------- The cut ----------

  /** The total length a length-prefixed command at `wc` claims, in an `unsigned short`. */
  function ClaimedLen(b: Buffer, wc: nat): (len: nat)
    requires b.Valid() && wc < b.size
    ensures len < 0x1_0000
  {
    (Le16(b.At(wc + 2), b.At(wc + 3)) + 5) % 0x1_0000
  }

  predicate IsPrefixed(b: Buffer, wc: nat)
    requires b.Valid() && wc < b.size
  {
    var len := ClaimedLen(b, wc);
    b.At(wc) == FLAG && b.At(wc + 1) == 0x01 && wc + len <= b.size && b.At(wc + len - 1) == FLAG
  }

  /** The first 0x7E at or after `flag`, or the end of the buffer. */
  function NextFlag(b: Buffer, flag: nat): (r: nat)
    requires b.Valid() && flag <= b.size
    ensures flag <= r <= b.size && (r < b.size ==> b.At(r) == FLAG)
    ensures forall k | flag <= k < r :: b.At(k) != FLAG
    decreases b.size - flag
  {
    if b.At(flag) == FLAG || flag == b.size then flag else NextFlag(b, flag + 1)
  }

  /** The index of the last byte of the command at `wc`; a claimed length of zero gives `wc - 1`. */
  function CommandEnd(b: Buffer, wc: nat): (flag: int)
    requires b.Valid() && wc < b.size
    ensures wc - 1 <= flag <= b.size
  {
    if IsPrefixed(b, wc) then wc + ClaimedLen(b, wc) - 1
    else NextFlag(b, if wc == 0 && b.At(0) == FLAG then 1 else wc)
  }

  /** `diverges` when a pass writes nothing and does not advance, so that the C loop never ends. */
  datatype Outcome = Outcome(writes: seq<seq<byte>>, diverges: bool)

  function Split(b: Buffer, wc: nat): Outcome
    requires b.Valid() && wc <= b.size + 1
    decreases b.size + 1 - wc
  {
    if wc >= b.size then Outcome([], false)
    else
      var flag := CommandEnd(b, wc);
      if flag < wc then Outcome([], true)
      else
        var rest := Split(b, flag + 1);
        rest.(writes := [b.Bytes(wc, flag + 1)] + rest.writes)
  }

  /** `mdm_send_cmd` without synchronisation and without an exit request. */
  method SendCmd(b: Buffer) returns (writes: seq<seq<byte>>, diverges: bool)
    requires b.Valid()
    ensures Outcome(writes, diverges) == Split(b, 0)
  {
    hide CommandEnd;
    writes, diverges := [], false;
    var wc := 0;
    while wc < b.size
      invariant wc <= b.size + 1
      invariant Split(b, 0) == Split(b, wc).(writes := writes + Split(b, wc).writes)
      decreases b.size + 1 - wc
    {
      var flag := FindEnd(b, wc);
      if flag < wc {
        diverges := true;
        return;
      }
      writes := writes + [b.Bytes(wc, flag + 1)];
      wc := flag + 1;
    }
  }

  /** One pass of its loop, up to the write. */
  method FindEnd(b: Buffer, wc: nat) returns (flag: int)
    requires b.Valid() && wc < b.size
    ensures flag == CommandEnd(b, wc)
  {
    hide IsPrefixed, ClaimedLen;
    flag := wc;
    if IsPrefixed(b, wc) {
      flag := flag + ClaimedLen(b, wc) - 1;
    } else {
      if flag == 0 && b.At(flag) == FLAG { flag := flag + 1; }
      ghost var from := flag;
      while b.At(flag) != FLAG && flag < b.size
        invariant wc <= flag <= b.size && NextFlag(b, flag) == NextFlag(b, from)
        decreases b.size - flag
      {
        flag := flag + 1;
      }
    }
  }

  // ---------- Well-formed buffers ----------

  /** An HDLC command: 0x7E only at its end. */
  predicate Hdlc(c: seq<byte>) {
    |c| >= 4 && c[|c| - 1] == FLAG && forall k | 0 <= k < |c| - 1 :: c[k] != FLAG
  }

  /** A length-prefixed command; its payload may contain any byte. */
  predicate Prefixed(c: seq<byte>) {
    |c| >= 5 && c[0] == FLAG && c[1] == 0x01 && Le16(c[2], c[3]) < 65531 &&
    |c| == Le16(c[2], c[3]) + 5 && c[|c| - 1] == FLAG
  }

  /** A buffer of well-formed commands is written command by command, and the loop ends. */
  lemma {:induction false} SplitsIntoCommands(b: Buffer, wc: nat, cmds: seq<seq<byte>>)
    requires b.Valid() && wc <= b.size
    requires forall k | 0 <= k < |cmds| :: Hdlc(cmds[k]) || Prefixed(cmds[k])
    requires b.Bytes(wc, b.size) == Flatten(cmds)
    ensures Split(b, wc) == Outcome(cmds, false)
    decreases |cmds|
  {
    hide CommandEnd, Hdlc, Prefixed;
    if |cmds| > 0 {
      var c, rest := cmds[0], Flatten(cmds[1..]);
      var next := wc + |c|;
      var whole := c + rest;
      assert whole == Flatten(cmds) == b.Bytes(wc, b.size);
      assert whole[..|c|] == c && whole[|c|..] == rest;
      BytesSplit(b, wc, next, b.size);
      if Hdlc(c) { EndOfHdlc(b, wc, c); } else { EndOfPrefixed(b, wc, c); }
      SplitsIntoCommands(b, next, cmds[1..]);
      assert [c] + cmds[1..] == cmds;
    }
  }

  lemma BytesSplit(b: Buffer, from: nat, mid: nat, to: nat)
    requires b.Valid() && from <= mid <= to <= b.size + 1
    ensures b.Bytes(from, to)[..mid - from] == b.Bytes(from, mid)
    ensures b.Bytes(from, to)[mid - from..] == b.Bytes(mid, to)
  {
  }

  lemma BytesAt(b: Buffer, wc: nat, c: seq<byte>, k: nat)
    requires b.Valid() && k < |c| && wc + |c| <= b.size && b.Bytes(wc, wc + |c|) == c
    ensures b.At(wc + k) == c[k]
  {
    assert b.Bytes(wc, wc + |c|)[k] == c[k];
  }

  lemma EndOfHdlc(b: Buffer, wc: nat, c: seq<byte>)
    requires b.Valid() && Hdlc(c) && wc + |c| <= b.size && b.Bytes(wc, wc + |c|) == c
    ensures |c| > 0 && CommandEnd(b, wc) == wc + |c| - 1
  {
    forall k | 0 <= k < |c| ensures b.At(wc + k) == c[k] { BytesAt(b, wc, c, k); }
    assert b.At(wc + 0) == c[0] != FLAG;
    assert b.At(wc + (|c| - 1)) == FLAG;
  }

  lemma EndOfPrefixed(b: Buffer, wc: nat, c: seq<byte>)
    requires b.Valid() && Prefixed(c) && wc + |c| <= b.size && b.Bytes(wc, wc + |c|) == c
    ensures |c| > 0 && CommandEnd(b, wc) == wc + |c| - 1
  {
    hide Le16;
    BytesAt(b, wc, c, 0);
    BytesAt(b, wc, c, 1);
    BytesAt(b, wc, c, 2);
    BytesAt(b, wc, c, 3);
    BytesAt(b, wc, c, |c| - 1);
    assert ClaimedLen(b, wc) == |c|;
  }

  /**
   A buffer that holds one command between two flags goes out in one write: its first 0x7E does not end
   it. The exceptions are length fields that claim one byte, or wrap to zero behind another 0x7E.
   */
  lemma FlaggedIsOneWriteExactlyWhen(b: Buffer, body: seq<byte>)
    requires b.Valid() && b.size == |body| + 2 && FLAG !in body
    requires b.Bytes(0, b.size) == [FLAG] + body + [FLAG]
    ensures Split(b, 0) == Outcome([b.Bytes(0, b.size)], false) <==>
            !(b.At(1) == 0x01 &&
              (Le16(b.At(2), b.At(3)) == 65532 || (Le16(b.At(2), b.At(3)) == 65531 && b.At(-1) == FLAG)))
  {
    hide Le16;
    var n := b.size;
    forall k | 0 <= k < n ensures b.At(k) == FLAG <==> k == 0 || k == n - 1 {
      assert b.Bytes(0, n)[k] == ([FLAG] + body + [FLAG])[k];
      if 0 < k < n - 1 { assert body[k - 1] in body; }
    }
    FirstFlagBehind(b);
    EndOfFlagged(b);
    hide CommandEnd;
    var flag := CommandEnd(b, 0);
    if flag == n - 1 {
      assert Split(b, n).writes == [];
    } else if flag == 0 {
      assert |Split(b, 0).writes[0]| == 1;
    }
  }

  lemma FirstFlagBehind(b: Buffer)
    requires b.Valid() && b.size >= 2 && b.At(b.size - 1) == FLAG && forall k | 0 < k < b.size - 1 :: b.At(k) != FLAG
    ensures NextFlag(b, 1) == b.size - 1
  {
  }

  lemma EndOfFlagged(b: Buffer)
    requires b.Valid() && b.size >= 2 && NextFlag(b, 1) == b.size - 1
    requires forall k | 0 <= k < b.size :: b.At(k) == FLAG <==> k == 0 || k == b.size - 1
    ensures var n, wraps := b.size, Le16(b.At(2), b.At(3));
            CommandEnd(b, 0) == if b.At(1) == 0x01 && wraps == 65532 then 0
                                else if b.At(1) == 0x01 && wraps == 65531 && b.At(-1) == FLAG then -1
                                else n - 1
  {
    hide Le16;
    var len := ClaimedLen(b, 0);
    assert IsPrefixed(b, 0) ==> len == 0 || len == 1 || len == b.size;
  }

  /** A frame of `diag_send_data` is one such command, so it goes out in one piece. */
  lemma FrameIsHdlc(msg: seq<byte>)
    requires |msg| >= 4
    ensures Hdlc(Frame(msg))
  {
    StuffHasNoFlag(msg[..|msg| - 1]);
  }

  lemma {:induction false} StuffHasNoFlag(body: seq<byte>)
    ensures FLAG !in Stuff(body)
    decreases |body|
  {
    if |body| > 0 {
      StuffHasNoFlag(body[..|body| - 1]);
      StuffedByteIsNoFlag(body[|body| - 1]);
    }
  }

  lemma StuffedByteIsNoFlag(b: byte)
    ensures FLAG !in StuffByte(b)
  {
  }

  // ---------- Every buffer ----------

  /** A command start at which the claimed length wraps to zero, just behind a 0x7E. */
  predicate Stuck(b: Buffer, wc: nat)
    requires b.Valid() && wc < b.size
  {
    b.At(wc) == FLAG && b.At(wc + 1) == 0x01 && Le16(b.At(wc + 2), b.At(wc + 3)) == 65531 && b.At(wc - 1) == FLAG
  }

  /** Only there a pass makes no progress, and then the next pass starts where this one did. */
  lemma PassStaysExactlyWhen(b: Buffer, wc: nat)
    requires b.Valid() && wc < b.size
    ensures CommandEnd(b, wc) < wc <==> Stuck(b, wc)
    ensures CommandEnd(b, wc) < wc <==> CommandEnd(b, wc) + 1 == wc
  {
    hide Le16;
  }

  /** The next start if the commands written so far are `writes`. */
  function StartAfter(wc: nat, writes: seq<seq<byte>>): nat {
    wc + |Flatten(writes)|
  }

  /** The last byte of the buffer ends no command: there is no 0x7E, or only one that opens the buffer. */
  predicate Unterminated(b: Buffer)
    requires b.Valid() && b.size > 0
  {
    b.At(b.size - 1) != FLAG || (b.size == 1 && !IsPrefixed(b, 0))
  }

  /**
   The writes of `o`, from the start `wc` on, are the bytes of the buffer in order, once each, up to where
   the call stops: the stuck start at which it hangs, or the end, or one byte further when the last
   command has no end.
   */
  predicate Accounts(b: Buffer, wc: nat, o: Outcome)
    requires b.Valid() && wc <= b.size
  {
    var end := StartAfter(wc, o.writes);
    end <= b.size + 1 && Flatten(o.writes) == b.Bytes(wc, end) &&
    (if o.diverges then end < b.size && Stuck(b, end)
     else end == if wc < b.size && Unterminated(b) then b.size + 1 else b.size)
  }

  /** So it is for every buffer. */
  lemma {:induction false} WritesConserveBytes(b: Buffer, wc: nat)
    requires b.Valid() && wc <= b.size
    ensures Accounts(b, wc, Split(b, wc))
    decreases b.size - wc
  {
    hide CommandEnd, Stuck, Unterminated, Flatten;
    if wc < b.size {
      var flag := CommandEnd(b, wc);
      PassStaysExactlyWhen(b, wc);
      EndOfLast(b, wc);
      if wc <= flag < b.size {
        WritesConserveBytes(b, flag + 1);
        AccountsStep(b, wc, flag + 1, Split(b, flag + 1));
      } else if flag == b.size {
        FlattenNone();
        FlattenCons(b.Bytes(wc, b.size + 1), []);
      } else {
        FlattenNone();
      }
    } else {
      FlattenNone();
    }
  }

  lemma FlattenNone()
    ensures Flatten<byte>([]) == []
  {
  }

  lemma AccountsStep(b: Buffer, wc: nat, next: nat, rest: Outcome)
    requires b.Valid() && wc < next <= b.size && Accounts(b, next, rest)
    requires next == b.size ==> !Unterminated(b)
    ensures Accounts(b, wc, rest.(writes := [b.Bytes(wc, next)] + rest.writes))
  {
    hide Stuck, Unterminated, Flatten;
    FlattenCons(b.Bytes(wc, next), rest.writes);
    JoinBytes(b, wc, next, StartAfter(next, rest.writes));
  }

  lemma FlattenCons(first: seq<byte>, rest: seq<seq<byte>>)
    ensures Flatten([first] + rest) == first + Flatten(rest)
  {
    assert ([first] + rest)[1..] == rest;
  }

  lemma JoinBytes(b: Buffer, from: nat, mid: nat, to: nat)
    requires b.Valid() && from <= mid <= to <= b.size + 1
    ensures b.Bytes(from, mid) + b.Bytes(mid, to) == b.Bytes(from, to)
  {
  }

  /** A pass runs over the end exactly when no 0x7E is left for its command. */
  lemma EndOfLast(b: Buffer, wc: nat)
    requires b.Valid() && wc < b.size
    ensures CommandEnd(b, wc) == b.size ==> Unterminated(b)
    ensures wc <= CommandEnd(b, wc) == b.size - 1 ==> !Unterminated(b)
  {
    hide Le16;
  }

  /**
   The call hangs exactly when one of the starts it reaches is stuck, the starts being where its writes
   end. It has then written everything before that start.
   */
  lemma HangsExactlyWhen(b: Buffer)
    requires b.Valid()
    ensures Split(b, 0).diverges <==> exists n | 0 <= n <= |Split(b, 0).writes| ::
                                        StuckAfter(b, 0, Split(b, 0).writes[..n])
  {
    hide Split, Stuck;
    var writes := Split(b, 0).writes;
    WritesConserveBytes(b, 0);
    assert writes[..|writes|] == writes;
    forall n | 0 <= n <= |writes| && StuckAfter(b, 0, writes[..n]) ensures Split(b, 0).diverges {
      StuckStops(b, 0, n);
    }
  }

  predicate StuckAfter(b: Buffer, wc: nat, writes: seq<seq<byte>>)
    requires b.Valid()
  {
    StartAfter(wc, writes) < b.size && Stuck(b, StartAfter(wc, writes))
  }

  lemma {:induction false} StuckStops(b: Buffer, wc: nat, n: nat)
    requires b.Valid() && wc <= b.size && n <= |Split(b, wc).writes|
    requires StuckAfter(b, wc, Split(b, wc).writes[..n])
    ensures Split(b, wc).diverges
    decreases n
  {
    hide CommandEnd, Stuck;
    PassStaysExactlyWhen(b, wc);
    if n > 0 {
      var flag, writes := CommandEnd(b, wc), Split(b, wc).writes;
      assert writes[..n] == [writes[0]] + writes[1..][..n - 1];
      FlattenCons(writes[0], writes[1..][..n - 1]);
      StuckStops(b, flag + 1, n - 1);
    }
  }

  /** Buffers without the pattern are safe: a caller can look for it before the call. */
  lemma EndsWithoutPattern(b: Buffer, wc: nat)
    requires b.Valid() && wc <= b.size && forall k | wc <= k < b.size :: !Stuck(b, k)
    ensures !Split(b, wc).diverges
  {
    WritesConserveBytes(b, wc);
  }

  /** A command of four bytes followed by the pattern: the command is written, and the call hangs. */
  lemma HangingBuffer()
    ensures var b := Buffer([0, 0x4B, 0x12, 0x00, 0x7E, 0x7E, 0x01, 0xFB, 0xFF, 0, 0, 0], 1, 8);
            b.Valid() && Split(b, 0) == Outcome([[0x4B, 0x12, 0x00, 0x7E]], true)
  {
    var b := Buffer([0, 0x4B, 0x12, 0x00, 0x7E, 0x7E, 0x01, 0xFB, 0xFF, 0, 0, 0], 1, 8);
    assert b.At(4) == FLAG && b.At(5) == 0x01 && b.At(6) == 0xFB && b.At(7) == 0xFF && b.At(3) == FLAG;
    assert Stuck(b, 4);
    PassStaysExactlyWhen(b, 4);
    assert NextFlag(b, 2) == NextFlag(b, 3) == 3 && NextFlag(b, 0) == NextFlag(b, 1) == NextFlag(b, 2);
    assert CommandEnd(b, 0) == 3;
    assert b.Bytes(0, 4) == [0x4B, 0x12, 0x00, 0x7E];
    assert Split(b, 4) == Outcome([], true);
  }
}
