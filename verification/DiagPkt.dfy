/**
 The HDLC-style deframer of diag_pkt.c: one received byte as a step, a chunk as the C loop reads it,
 and the class that runs that loop over its packet buffer.
 */
module DiagPkt {
  import opened Bytes

  /** The settings of `diag_pkt_malloc`; `start7e` demands a 0x7E before each packet as well as after. */
  datatype Config = Config(minLen: nat, maxLen: nat, start7e: bool)

  /** `delivered` records the buffer of every `handle_pkt` call; `errors` is the 32-bit counter. */
  datatype State = State(buf: seq<byte>, last7d: bool, errors: nat, delivered: seq<seq<byte>>)

  const INIT := State([], false, 0, [])

  /** The counter is a `uint32_t`. */
  function Bump(errors: nat): nat {
    (errors + 1) % 0x1_0000_0000
  }

  // ---------- One byte at a time ----------

  /** In start7e mode nothing is accepted until a first 0x7E is in the buffer. */
  predicate OutOfFrame(cfg: Config, st: State) {
    cfg.start7e && st.buf == []
  }

  function Escaped(cfg: Config, st: State, b: byte): State {
    if OutOfFrame(cfg, st) then st.(errors := Bump(st.errors)) else st.(buf := st.buf + [b ^ 0x20])
  }

  function Flag(cfg: Config, st: State): State {
    Close(cfg, st.(buf := st.buf + [FLAG]))
  }

  /** A 0x7E has been stored: deliver the packet, keep it as a start flag, or discard it. */
  function Close(cfg: Config, st: State): State
    requires |st.buf| > 0
  {
    if |st.buf| >= cfg.minLen then st.(buf := [], delivered := st.delivered + [st.buf])
    else if cfg.start7e && |st.buf| == 1 then st
    else if cfg.start7e && |st.buf| == 2 then st.(buf := st.buf[..1], errors := Bump(st.errors))
    else st.(buf := [], errors := Bump(st.errors))
  }

  function Plain(cfg: Config, st: State, b: byte): State {
    if OutOfFrame(cfg, st) then st.(errors := Bump(st.errors))
    else if |st.buf| + 1 > cfg.maxLen then st.(buf := [], errors := Bump(st.errors))
    else st.(buf := st.buf + [b])
  }

  function Step(cfg: Config, st: State, b: byte): State {
    if st.last7d then Escaped(cfg, st.(last7d := false), b)
    else if b == ESCAPE then st.(last7d := true)
    else if b == FLAG then Flag(cfg, st)
    else Plain(cfg, st, b)
  }

  /** The reference reading of a byte stream, which knows nothing of chunks. */
  function Run(cfg: Config, st: State, src: seq<byte>): State
    decreases |src|
  {
    if |src| == 0 then st else Run(cfg, Step(cfg, st, src[0]), src[1..])
  }

  lemma {:induction false} RunAppend(cfg: Config, st: State, a: seq<byte>, b: seq<byte>)
    ensures Run(cfg, st, a + b) == Run(cfg, Run(cfg, st, a), b)
    decreases |a|
  {
    if |a| == 0 {
      assert a + b == b;
    } else {
      assert (a + b)[1..] == a[1..] + b;
      RunAppend(cfg, Step(cfg, st, a[0]), a[1..], b);
    }
  }

  // ---------- One chunk, as `diag_pkt_input` reads it ----------

  /**
   The loop's variables: the counter `i`, the source pointer `p`, and three records of the run:
   `streak`, the escape pairs since the last plain byte or flag; `maxStreak`, its maximum; and
   `peak`, the largest packet length reached by a store.
   */
  datatype Cursor = Cursor(st: State, i: nat, p: nat, streak: nat, maxStreak: nat, peak: nat)

  function Max(a: nat, b: nat): nat {
    if a < b then b else a
  }

  function Stored(c: Cursor, st: State, streak: nat): Cursor {
    c.(st := st, streak := streak, maxStreak := Max(c.maxStreak, streak), peak := Max(c.peak, |c.st.buf| + 1))
  }

  /** One pass of the loop. Out of frame, an escape moves `i` by two but `p` by one. */
  function Pass(cfg: Config, src: seq<byte>, c: Cursor): Cursor
    requires c.p <= c.i < |src|
  {
    if src[c.p] == ESCAPE then
      if c.i + 1 == |src| then c.(st := c.st.(last7d := true), i := c.i + 1, p := c.p + 1)
      else if OutOfFrame(cfg, c.st) then
        c.(st := Escaped(cfg, c.st, src[c.p + 1]), i := c.i + 2, p := c.p + 1)
      else Stored(c, Escaped(cfg, c.st, src[c.p + 1]), c.streak + 1).(i := c.i + 2, p := c.p + 2)
    else if src[c.p] == FLAG then Stored(c, Flag(cfg, c.st), 0).(i := c.i + 1, p := c.p + 1)
    else if OutOfFrame(cfg, c.st) then
      c.(st := Plain(cfg, c.st, src[c.p]), i := c.i + 1, p := c.p + 1)
    else Stored(c, Plain(cfg, c.st, src[c.p]), 0).(i := c.i + 1, p := c.p + 1)
  }

  function Loop(cfg: Config, src: seq<byte>, c: Cursor): (r: Cursor)
    requires c.p <= c.i <= |src|
    ensures r.p <= r.i == |src| && c.peak <= r.peak && c.maxStreak <= r.maxStreak
    decreases |src| - c.i
  {
    if c.i == |src| then c else Loop(cfg, src, Pass(cfg, src, c))
  }

  /** The byte after a 0x7D that ended the previous chunk. */
  function Enter(cfg: Config, st: State, streak: nat, src: seq<byte>): (c: Cursor)
    requires |src| > 0
    ensures c.p == c.i <= 1
  {
    var c := Cursor(st.(last7d := false), 0, 0, streak, streak, 0);
    if !st.last7d then c
    else if OutOfFrame(cfg, st) then c.(st := Escaped(cfg, c.st, src[0]), i := 1, p := 1)
    else Stored(c, Escaped(cfg, c.st, src[0]), streak + 1).(i := 1, p := 1)
  }

  function Chunk(cfg: Config, st: State, streak: nat, src: seq<byte>): (c: Cursor)
    requires |src| > 0
  {
    Loop(cfg, src, Enter(cfg, st, streak, src))
  }

  // ---------- When a chunk is read as the byte stream it is ----------

  /** No 0x7D arrives out of frame with its second byte in the same chunk. */
  predicate InFrame(cfg: Config, st: State, src: seq<byte>)
    decreases |src|
  {
    |src| == 0 || (!(OutOfFrame(cfg, st) && !st.last7d && src[0] == ESCAPE && |src| > 1)
                   && InFrame(cfg, Step(cfg, st, src[0]), src[1..]))
  }

  /** All but the last byte. */
  function Front(src: seq<byte>): seq<byte>
    requires |src| > 0
  {
    src[..|src| - 1]
  }

  /** The pointer keeps up with the counter to the end exactly when the rest of the chunk is in frame. */
  lemma {:induction false} LoopReadsAll(cfg: Config, src: seq<byte>, c: Cursor)
    requires c.p == c.i <= |src| && !c.st.last7d
    ensures InFrame(cfg, c.st, src[c.i..]) <==> Loop(cfg, src, c).p == |src|
    decreases |src| - c.i
  {
    if c.i < |src| {
      var rest, next := src[c.i..], Pass(cfg, src, c);
      assert rest[1..] == src[c.i + 1..];
      if rest[0] == ESCAPE && c.i + 1 < |src| {
        if OutOfFrame(cfg, c.st) {
          Lag(cfg, src, next);
        } else {
          assert rest[1..][1..] == src[c.i + 2..];
          var half := Step(cfg, c.st, rest[0]);
          assert Step(cfg, half, rest[1]) == next.st;
          assert InFrame(cfg, c.st, rest) <==> InFrame(cfg, half, rest[1..]);
          LoopReadsAll(cfg, src, next);
        }
      } else if rest[0] == ESCAPE {
        assert rest[1..] == [];
      } else {
        LoopReadsAll(cfg, src, next);
      }
    }
  }

  /** The last byte may go unread: there is nothing an escape out of frame could still lose. */
  lemma {:induction false} LoopIsRun(cfg: Config, src: seq<byte>, c: Cursor)
    requires c.p == c.i < |src| && !c.st.last7d && InFrame(cfg, c.st, Front(src[c.i..]))
    ensures Loop(cfg, src, c).st == Run(cfg, c.st, src[c.i..])
    decreases |src| - c.i
  {
    var rest, next := src[c.i..], Pass(cfg, src, c);
    assert rest[1..] == src[c.i + 1..];
    if rest[0] == ESCAPE && c.i + 1 < |src| {
      var half := Step(cfg, c.st, rest[0]);
      assert rest[1..][1..] == src[c.i + 2..] && Front(rest)[1..] == Front(rest[1..]);
      assert Step(cfg, half, rest[1]) == next.st;
      assert Run(cfg, c.st, rest) == Run(cfg, half, rest[1..]) == Run(cfg, next.st, src[c.i + 2..]);
      if c.i + 2 < |src| {
        assert Front(rest[1..])[1..] == Front(src[c.i + 2..]);
        LoopIsRun(cfg, src, next);
      }
    } else if rest[0] == ESCAPE || c.i + 1 == |src| {
      assert rest[1..] == [];
    } else {
      assert Front(rest)[1..] == Front(rest[1..]);
      LoopIsRun(cfg, src, next);
    }
  }

  /** Once the pointer lags behind the counter it stays behind: the chunk's tail is never read. */
  lemma {:induction false} Lag(cfg: Config, src: seq<byte>, c: Cursor)
    requires c.p < c.i <= |src|
    ensures Loop(cfg, src, c).p < |src|
    decreases |src| - c.i
  {
    if c.i < |src| { Lag(cfg, src, Pass(cfg, src, c)); }
  }

  /**
   A chunk is read completely exactly when no escape pair arrives out of frame. It is read as the
   byte-at-a-time reference reads it when none does before the last byte.
   */
  lemma ChunkIsRun(cfg: Config, st: State, streak: nat, src: seq<byte>)
    requires |src| > 0
    ensures Chunk(cfg, st, streak, src).p == |src| <==> InFrame(cfg, st, src)
    ensures InFrame(cfg, st, Front(src)) ==> Chunk(cfg, st, streak, src).st == Run(cfg, st, src)
  {
    var c := Enter(cfg, st, streak, src);
    LoopReadsAll(cfg, src, c);
    assert src[0..] == src;
    if InFrame(cfg, st, Front(src)) {
      assert st.last7d ==> c.st == Step(cfg, st, src[0]);
      if c.i < |src| {
        assert st.last7d ==> Front(src[1..]) == Front(src)[1..];
        LoopIsRun(cfg, src, c);
      }
    }
  }

  // ---------- What the lag costs ----------

  lemma {:induction false} LagIgnoresLast(cfg: Config, a: seq<byte>, b: seq<byte>, c: Cursor)
    requires c.p < c.i <= |a| == |b| && Front(a) == Front(b)
    ensures Loop(cfg, a, c) == Loop(cfg, b, c)
    decreases |a| - c.i
  {
    if c.i < |a| {
      assert a[c.p] == Front(a)[c.p] == b[c.p];
      if c.i + 1 < |a| { assert a[c.p + 1] == Front(a)[c.p + 1] == b[c.p + 1]; }
      LagIgnoresLast(cfg, a, b, Pass(cfg, a, c));
    }
  }

  /** With an escape pair out of frame before it, the last byte makes no difference to the loop. */
  lemma {:induction false} LoopIgnoresLast(cfg: Config, a: seq<byte>, b: seq<byte>, c: Cursor)
    requires c.p == c.i < |a| == |b| && !c.st.last7d && Front(a) == Front(b)
    requires !InFrame(cfg, c.st, Front(a)[c.i..])
    ensures Loop(cfg, a, c) == Loop(cfg, b, c)
    decreases |a| - c.i
  {
    var rest, next := Front(a)[c.i..], Pass(cfg, a, c);
    assert |rest| > 1 && rest[1..] == Front(a)[c.i + 1..] && rest[1..][1..] == Front(a)[c.i + 2..];
    assert a[c.i] == Front(a)[c.i] == b[c.i] && a[c.i + 1] == Front(a)[c.i + 1] == b[c.i + 1];
    assert Pass(cfg, b, c) == next;
    if rest[0] == ESCAPE {
      if OutOfFrame(cfg, c.st) {
        LagIgnoresLast(cfg, a, b, next);
      } else {
        assert Step(cfg, Step(cfg, c.st, rest[0]), rest[1]) == next.st;
        LoopIgnoresLast(cfg, a, b, next);
      }
    } else {
      LoopIgnoresLast(cfg, a, b, next);
    }
  }

  lemma ChunkIgnoresLast(cfg: Config, st: State, streak: nat, src: seq<byte>, x: byte, y: byte)
    requires !InFrame(cfg, st, src)
    ensures Chunk(cfg, st, streak, src + [x]).st == Chunk(cfg, st, streak, src + [y]).st
  {
    var a, b := src + [x], src + [y];
    assert Front(a) == src == Front(b) && src[0..] == src && |src| > 1;
    assert a[0] == src[0] == b[0];
    LoopIgnoresLast(cfg, a, b, Enter(cfg, st, streak, a));
  }

  /** No 0x7D arrives out of frame at all, not even as the last byte. */
  predicate EscapesInFrame(cfg: Config, st: State, src: seq<byte>)
    decreases |src|
  {
    |src| == 0 || (!(OutOfFrame(cfg, st) && !st.last7d && src[0] == ESCAPE)
                   && EscapesInFrame(cfg, Step(cfg, st, src[0]), src[1..]))
  }

  lemma {:induction false} InFrameWithOneMore(cfg: Config, st: State, src: seq<byte>, x: byte)
    ensures EscapesInFrame(cfg, st, src) <==> InFrame(cfg, st, src + [x])
    ensures EscapesInFrame(cfg, st, src) ==> InFrame(cfg, st, src)
    decreases |src|
  {
    if |src| > 0 {
      assert (src + [x])[1..] == src[1..] + [x];
      InFrameWithOneMore(cfg, Step(cfg, st, src[0]), src[1..], x);
    } else {
      assert (src + [x])[1..] == [];
    }
  }

  /** An escape out of frame can always be followed by two bytes that a chunk with them misreads. */
  lemma EscapeMisleads(cfg: Config, st: State, streak: nat, src: seq<byte>) returns (last: byte)
    requires !EscapesInFrame(cfg, st, src)
    ensures Chunk(cfg, st, streak, src + [0x41, last]).st != Run(cfg, st, src + [0x41, last])
  {
    var more := src + [0x41];
    InFrameWithOneMore(cfg, st, src, 0x41);
    ChunkIgnoresLast(cfg, st, streak, more, FLAG, ESCAPE);
    RunAppend(cfg, st, src, [0x41]);
    OneByte(cfg, Run(cfg, st, src), 0x41);
    var mid := Run(cfg, st, more);
    assert !mid.last7d;
    RunAppend(cfg, st, more, [FLAG]);
    RunAppend(cfg, st, more, [ESCAPE]);
    OneByte(cfg, mid, FLAG);
    OneByte(cfg, mid, ESCAPE);
    assert !Run(cfg, st, more + [FLAG]).last7d && Run(cfg, st, more + [ESCAPE]).last7d;
    last := if Chunk(cfg, st, streak, more + [FLAG]).st == Run(cfg, st, more + [FLAG]) then ESCAPE else FLAG;
    assert more + [last] == src + [0x41, last];
  }

  lemma OneByte(cfg: Config, st: State, b: byte)
    ensures Run(cfg, st, [b]) == Step(cfg, st, b)
  {
    assert [b][1..] == [];
  }

  /** Without start flags there is no such escape. */
  lemma {:induction false} AlwaysInFrame(cfg: Config, st: State, src: seq<byte>)
    requires !cfg.start7e
    ensures InFrame(cfg, st, src)
    decreases |src|
  {
    if |src| > 0 { AlwaysInFrame(cfg, Step(cfg, st, src[0]), src[1..]); }
  }

  /** Out of frame the loss is real: in one piece these bytes lose the start flag that ends them. */
  lemma OutOfFrameEscapeLosesBytes()
    ensures var cfg := Config(10, 0x400A, true);
            Chunk(cfg, INIT, 0, [ESCAPE, 0x41, FLAG]).st != Run(cfg, INIT, [ESCAPE, 0x41, FLAG])
  {
    var cfg := Config(10, 0x400A, true);
    var src := [ESCAPE, 0x41, FLAG];
    var st1 := Step(cfg, INIT, ESCAPE);
    var st2 := Step(cfg, st1, 0x41);
    assert src[1..] == [0x41, FLAG] && src[1..][1..] == [FLAG];
    assert Run(cfg, INIT, src) == Run(cfg, st2, [FLAG]) == Step(cfg, st2, FLAG);
    assert Run(cfg, INIT, src).buf == [FLAG];
    var c1 := Pass(cfg, src, Enter(cfg, INIT, 0, src));
    var c2 := Pass(cfg, src, c1);
    assert Chunk(cfg, INIT, 0, src) == Loop(cfg, src, c1) == Loop(cfg, src, c2) == c2;
    assert c2.st.buf == [];
  }

  // ---------- A stream in chunks ----------

  predicate NonEmpty(chunks: seq<seq<byte>>) {
    forall k | 0 <= k < |chunks| :: |chunks[k]| > 0
  }

  /** Successive calls: each starts from the state and the streak the previous one left. */
  function Feed(cfg: Config, st: State, streak: nat, chunks: seq<seq<byte>>): State
    requires NonEmpty(chunks)
    decreases |chunks|
  {
    if |chunks| == 0 then st
    else
      var c := Chunk(cfg, st, streak, chunks[0]);
      Feed(cfg, c.st, c.streak, chunks[1..])
  }

  lemma {:induction false} InFramePrefix(cfg: Config, st: State, a: seq<byte>, b: seq<byte>)
    requires InFrame(cfg, st, a + b)
    ensures InFrame(cfg, st, a) && InFrame(cfg, Run(cfg, st, a), b)
    decreases |a|
  {
    if |a| == 0 {
      assert a + b == b;
    } else {
      assert (a + b)[1..] == a[1..] + b;
      InFramePrefix(cfg, Step(cfg, st, a[0]), a[1..], b);
    }
  }

  /** In each chunk, no escape pair arrives out of frame before the last byte. */
  predicate InFrameChunks(cfg: Config, st: State, chunks: seq<seq<byte>>)
    requires NonEmpty(chunks)
    decreases |chunks|
  {
    |chunks| == 0 || (InFrame(cfg, st, Front(chunks[0])) &&
                      InFrameChunks(cfg, Run(cfg, st, chunks[0]), chunks[1..]))
  }

  /** The chunking does not matter: such a split delivers what the stream as a whole delivers. */
  lemma {:induction false} FeedIsRun(cfg: Config, st: State, streak: nat, chunks: seq<seq<byte>>)
    requires NonEmpty(chunks) && InFrameChunks(cfg, st, chunks)
    ensures Feed(cfg, st, streak, chunks) == Run(cfg, st, Flatten(chunks))
    decreases |chunks|
  {
    if |chunks| > 0 {
      var c := Chunk(cfg, st, streak, chunks[0]);
      ChunkIsRun(cfg, st, streak, chunks[0]);
      RunAppend(cfg, st, chunks[0], Flatten(chunks[1..]));
      FeedIsRun(cfg, c.st, c.streak, chunks[1..]);
    }
  }

  /** Every split of a stream in frame is such a split. */
  lemma {:induction false} InFrameSplits(cfg: Config, st: State, chunks: seq<seq<byte>>)
    requires NonEmpty(chunks) && InFrame(cfg, st, Flatten(chunks))
    ensures InFrameChunks(cfg, st, chunks)
    decreases |chunks|
  {
    if |chunks| > 0 {
      var first := chunks[0];
      InFramePrefix(cfg, st, first, Flatten(chunks[1..]));
      assert first == Front(first) + first[|first| - 1..];
      InFramePrefix(cfg, st, Front(first), first[|first| - 1..]);
      InFrameSplits(cfg, Run(cfg, st, first), chunks[1..]);
    }
  }

  /** The chunks are a split of `src` and at most two bytes more. */
  predicate Covers(chunks: seq<seq<byte>>, src: seq<byte>) {
    NonEmpty(chunks) && src <= Flatten(chunks) && |Flatten(chunks)| <= |src| + 2
  }

  /** Splits agree, also with two bytes still to come, exactly when no 0x7D arrives out of frame. */
  lemma SplitsAgreeExactlyWhen(cfg: Config, st: State, streak: nat, src: seq<byte>)
    ensures EscapesInFrame(cfg, st, src) <==>
            forall chunks | Covers(chunks, src) :: Feed(cfg, st, streak, chunks) == Run(cfg, st, Flatten(chunks))
  {
    if EscapesInFrame(cfg, st, src) {
      forall chunks | Covers(chunks, src)
        ensures Feed(cfg, st, streak, chunks) == Run(cfg, st, Flatten(chunks))
      {
        EscapesSplit(cfg, st, src, chunks);
        FeedIsRun(cfg, st, streak, chunks);
      }
    } else {
      var last := EscapeMisleads(cfg, st, streak, src);
      var whole := src + [0x41, last];
      var chunks := [whole];
      assert Flatten(chunks) == whole + Flatten(chunks[1..]) == whole;
      assert chunks[1..] == [] && src <= whole;
      assert Covers(chunks, src) && Feed(cfg, st, streak, chunks) == Chunk(cfg, st, streak, whole).st;
    }
  }

  lemma {:induction false} EscapesSplit(cfg: Config, st: State, src: seq<byte>, chunks: seq<seq<byte>>)
    requires EscapesInFrame(cfg, st, src) && Covers(chunks, src)
    ensures InFrameChunks(cfg, st, chunks)
    decreases |chunks|
  {
    if |chunks| > 0 {
      var first, later := chunks[0], Flatten(chunks[1..]);
      if |first| <= |src| {
        var rest := src[|first|..];
        assert (first + later)[..|src|] == src && src == first + rest;
        assert rest == (first + later)[|first|..|src|] == later[..|rest|];
        EscapesAppend(cfg, st, Front(first), first[|first| - 1..]);
        EscapesAppend(cfg, st, first, rest);
        assert first == Front(first) + first[|first| - 1..];
        InFrameWithOneMore(cfg, st, Front(first), 0);
        EscapesSplit(cfg, Run(cfg, st, first), rest, chunks[1..]);
      } else {
        assert first[..|src|] == (first + later)[..|src|] == src;
        if |first| == |src| + 1 {
          assert Front(first) == src;
        } else {
          assert Front(first) == src + [first[|src|]];
        }
        InFrameWithOneMore(cfg, st, src, first[|src|]);
        EscapesSplit(cfg, Run(cfg, st, first), [], chunks[1..]);
      }
    }
  }

  lemma {:induction false} EscapesAppend(cfg: Config, st: State, a: seq<byte>, b: seq<byte>)
    ensures EscapesInFrame(cfg, st, a + b) <==> EscapesInFrame(cfg, st, a) && EscapesInFrame(cfg, Run(cfg, st, a), b)
    decreases |a|
  {
    if |a| == 0 {
      assert a + b == b;
    } else {
      assert (a + b)[1..] == a[1..] + b;
      EscapesAppend(cfg, Step(cfg, st, a[0]), a[1..], b);
    }
  }

  lemma FeedIsRunWithoutStartFlag(cfg: Config, st: State, streak: nat, chunks: seq<seq<byte>>)
    requires NonEmpty(chunks) && !cfg.start7e
    ensures Feed(cfg, st, streak, chunks) == Run(cfg, st, Flatten(chunks))
  {
    AlwaysInFrame(cfg, st, Flatten(chunks));
    InFrameSplits(cfg, st, chunks);
    FeedIsRun(cfg, st, streak, chunks);
  }

  // ---------- Self-synchronisation ----------

  /** Without start flags, an unescaped 0x7E forgets everything but the packets and the error count. */
  lemma FlagResets(cfg: Config, st: State, before: seq<byte>)
    requires !cfg.start7e && !Run(cfg, st, before).last7d
    ensures var after := Run(cfg, st, before + [FLAG]); after.buf == [] && !after.last7d
  {
    RunAppend(cfg, st, before, [FLAG]);
    var mid := Run(cfg, st, before);
    assert Run(cfg, mid, [FLAG]) == Step(cfg, mid, FLAG);
  }

  // ---------- What is delivered, and what is lost ----------

  /** With start flags, what is being collected starts with one; packets are long enough and delimited. */
  ghost predicate Framed(cfg: Config, st: State) {
    (cfg.start7e && st.buf != [] ==> st.buf[0] == FLAG) && (forall p | p in st.delivered :: GoodPacket(cfg, p))
  }

  predicate GoodPacket(cfg: Config, p: seq<byte>) {
    |p| > 0 && |p| >= cfg.minLen && p[|p| - 1] == FLAG && (cfg.start7e ==> p[0] == FLAG)
  }

  lemma EscapedKeepsFramed(cfg: Config, st: State, b: byte)
    requires Framed(cfg, st)
    ensures Framed(cfg, Escaped(cfg, st, b))
  {
    hide GoodPacket;
  }

  lemma PlainKeepsFramed(cfg: Config, st: State, b: byte)
    requires Framed(cfg, st)
    ensures Framed(cfg, Plain(cfg, st, b))
  {
    hide GoodPacket;
  }

  lemma FlagKeepsFramed(cfg: Config, st: State)
    requires Framed(cfg, st)
    ensures Framed(cfg, Flag(cfg, st))
  {
  }

  lemma PassKeepsFramed(cfg: Config, src: seq<byte>, c: Cursor)
    requires c.p <= c.i < |src| && Framed(cfg, c.st)
    ensures Framed(cfg, Pass(cfg, src, c).st)
  {
    PassStores(cfg, src, c);
    hide Escaped, Plain, Flag, GoodPacket;
    if src[c.p] == ESCAPE {
      if c.i + 1 < |src| { EscapedKeepsFramed(cfg, c.st, src[c.p + 1]); }
    } else if src[c.p] == FLAG {
      FlagKeepsFramed(cfg, c.st);
    } else {
      PlainKeepsFramed(cfg, c.st, src[c.p]);
    }
  }

  lemma {:induction false} LoopKeepsFramed(cfg: Config, src: seq<byte>, c: Cursor)
    requires c.p <= c.i <= |src| && Framed(cfg, c.st)
    ensures Framed(cfg, Loop(cfg, src, c).st)
    decreases |src| - c.i
  {
    hide Framed, Escaped, Flag, Plain;
    if c.i < |src| {
      PassKeepsFramed(cfg, src, c);
      LoopKeepsFramed(cfg, src, Pass(cfg, src, c));
    }
  }

  /**
   In either mode and through any chunks, nothing shorter than the minimum is ever delivered, and every
   packet ends in 0x7E and, with start flags, starts with one.
   */
  lemma {:induction false} DeliveredAreGood(cfg: Config, st: State, streak: nat, chunks: seq<seq<byte>>)
    requires NonEmpty(chunks) && Framed(cfg, st)
    ensures Framed(cfg, Feed(cfg, st, streak, chunks))
    decreases |chunks|
  {
    hide Framed;
    if |chunks| > 0 {
      var c := Enter(cfg, st, streak, chunks[0]);
      EnterStores(cfg, st, streak, chunks[0]);
      DropEscape(cfg, st);
      if st.last7d { EscapedKeepsFramed(cfg, st.(last7d := false), chunks[0][0]); }
      LoopKeepsFramed(cfg, chunks[0], c);
      var r := Chunk(cfg, st, streak, chunks[0]);
      DeliveredAreGood(cfg, r.st, r.streak, chunks[1..]);
    }
  }

  lemma DropEscape(cfg: Config, st: State)
    requires Framed(cfg, st)
    ensures Framed(cfg, st.(last7d := false))
  {
    hide GoodPacket;
  }

  lemma InitIsFramed(cfg: Config)
    ensures Framed(cfg, INIT)
  {
  }

  /** The bytes of a stream with its escape pairs undone. */
  function Unstuffed(pending: bool, src: seq<byte>): seq<byte>
    decreases |src|
  {
    if |src| == 0 then []
    else if pending then [src[0] ^ 0x20] + Unstuffed(false, src[1..])
    else if src[0] == ESCAPE then Unstuffed(true, src[1..])
    else [src[0]] + Unstuffed(false, src[1..])
  }

  /** Everything received so far: the packets and the one under construction. */
  function Content(st: State): seq<byte> {
    Flatten(st.delivered) + st.buf
  }

  function Data(st: State, b: byte): seq<byte> {
    if st.last7d then [b ^ 0x20] else if b == ESCAPE then [] else [b]
  }

  lemma ContentOfDelivered(st: State)
    ensures Content(st.(delivered := st.delivered + [st.buf], buf := [])) == Content(st)
  {
    FlattenAppend(st.delivered, [st.buf]);
    assert Flatten([st.buf]) == st.buf + Flatten([st.buf][1..]) == st.buf;
  }

  /** A step adds its byte to the content, or counts an error and loses bytes. */
  lemma StepLosesOrAdds(cfg: Config, st: State, b: byte)
    requires st.errors < 0x1_0000_0000
    ensures var next := Step(cfg, st, b);
            (next.errors == st.errors && Content(next) == Content(st) + Data(st, b)) ||
            (next.errors == Bump(st.errors) && |Content(next)| < |Content(st)| + |Data(st, b)|)
  {
    var full := st.(last7d := false, buf := st.buf + Data(st, b));
    assert Content(full) == Content(st) + Data(st, b);
    ContentOfDelivered(full);
    assert |Content(full.(buf := []))| == |Flatten(st.delivered)|;
  }

  lemma BumpChanges(errors: nat)
    requires errors < 0x1_0000_0000
    ensures Bump(errors) != errors && Bump(errors) < 0x1_0000_0000
  {
  }

  /** The number of errors, and what they mean for the content. */
  lemma {:induction false} RunLoses(cfg: Config, st: State, src: seq<byte>) returns (n: nat)
    requires st.errors < 0x1_0000_0000
    ensures n <= |src| && Run(cfg, st, src).errors == (st.errors + n) % 0x1_0000_0000
    ensures n == 0 ==> Content(Run(cfg, st, src)) == Content(st) + Unstuffed(st.last7d, src)
    ensures n > 0 ==> |Content(Run(cfg, st, src))| < |Content(st)| + |Unstuffed(st.last7d, src)|
    decreases |src|
  {
    hide Content;
    if |src| == 0 {
      n := 0;
      assert Content(st) + [] == Content(st);
    } else {
      var b, next, rest := src[0], Step(cfg, st, src[0]), src[1..];
      StepLosesOrAdds(cfg, st, b);
      UnstuffedStep(cfg, st, src);
      BumpChanges(st.errors);
      assert Run(cfg, st, src) == Run(cfg, next, rest);
      hide *;
      var m := RunLoses(cfg, next, rest);
      var later := Unstuffed(next.last7d, rest);
      assert Content(st) + Data(st, b) + later == Content(st) + (Data(st, b) + later);
      if next.errors == st.errors {
        n := m;
      } else {
        n := m + 1;
        BumpAdds(st.errors, m);
      }
    }
  }

  lemma UnstuffedStep(cfg: Config, st: State, src: seq<byte>)
    requires |src| > 0
    ensures Unstuffed(st.last7d, src) == Data(st, src[0]) + Unstuffed(Step(cfg, st, src[0]).last7d, src[1..])
  {
    StepPending(cfg, st, src[0]);
    hide Step;
  }

  lemma StepPending(cfg: Config, st: State, b: byte)
    ensures Step(cfg, st, b).last7d <==> !st.last7d && b == ESCAPE
  {
  }

  lemma BumpAdds(errors: nat, m: nat)
    ensures (Bump(errors) + m) % 0x1_0000_0000 == (errors + (m + 1)) % 0x1_0000_0000
  {
  }

  /** The error counter stays exactly when every byte of the stream is delivered or still being collected. */
  lemma ErrorsExactlyWhenLoss(cfg: Config, st: State, src: seq<byte>)
    requires st.errors < 0x1_0000_0000 && |src| < 0x1_0000_0000
    ensures Run(cfg, st, src).errors == st.errors <==>
            Content(Run(cfg, st, src)) == Content(st) + Unstuffed(st.last7d, src)
  {
    var n := RunLoses(cfg, st, src);
    hide Run, Content, Unstuffed;
    if n > 0 { Wraps(st.errors, n); }
  }

  lemma Wraps(errors: nat, n: nat)
    requires errors < 0x1_0000_0000 && 0 < n < 0x1_0000_0000
    ensures (errors + n) % 0x1_0000_0000 != errors
  {
  }

  // ---------- The length of the packet under construction ----------

  ghost predicate LenBound(cfg: Config, st: State, streak: nat) {
    |st.buf| <= cfg.maxLen + streak
  }

  lemma {:induction false} LoopBound(cfg: Config, src: seq<byte>, c: Cursor)
    requires c.p <= c.i <= |src| && cfg.maxLen > 0
    requires LenBound(cfg, c.st, c.streak) && c.streak <= c.maxStreak
    requires c.peak <= cfg.maxLen + 1 + c.maxStreak
    ensures var r := Loop(cfg, src, c);
            LenBound(cfg, r.st, r.streak) && r.peak <= cfg.maxLen + 1 + r.maxStreak
    decreases |src| - c.i
  {
    if c.i < |src| { LoopBound(cfg, src, Pass(cfg, src, c)); }
  }

  /**
   In either mode the packet length never exceeds the maximum by more than the escape pairs since the
   last plain byte or flag, and one byte more while it is being stored.
   */
  lemma ChunkBound(cfg: Config, st: State, streak: nat, src: seq<byte>)
    requires |src| > 0 && cfg.maxLen > 0 && LenBound(cfg, st, streak)
    ensures var r := Chunk(cfg, st, streak, src);
            LenBound(cfg, r.st, r.streak) && r.peak <= cfg.maxLen + 1 + r.maxStreak
  {
    LoopBound(cfg, src, Enter(cfg, st, streak, src));
  }

  /** Every store of a whole run stays within a buffer of `cap` bytes. */
  ghost predicate Fits(cfg: Config, st: State, streak: nat, chunks: seq<seq<byte>>, cap: nat)
    requires NonEmpty(chunks)
    decreases |chunks|
  {
    |chunks| == 0 || (var c := Chunk(cfg, st, streak, chunks[0]);
                      c.peak <= cap && Fits(cfg, c.st, c.streak, chunks[1..], cap))
  }

  /** No run of escape pairs ever reaches `spare`. */
  ghost predicate StreaksBelow(cfg: Config, st: State, streak: nat, chunks: seq<seq<byte>>, spare: nat)
    requires NonEmpty(chunks)
    decreases |chunks|
  {
    |chunks| == 0 || (var c := Chunk(cfg, st, streak, chunks[0]);
                      c.maxStreak < spare && StreaksBelow(cfg, c.st, c.streak, chunks[1..], spare))
  }

  lemma {:induction false} BoundedStreaksFit(
      cfg: Config, st: State, streak: nat, chunks: seq<seq<byte>>, cap: nat)
    requires NonEmpty(chunks) && 0 < cfg.maxLen <= cap && LenBound(cfg, st, streak)
    requires StreaksBelow(cfg, st, streak, chunks, cap - cfg.maxLen)
    ensures Fits(cfg, st, streak, chunks, cap)
    decreases |chunks|
  {
    if |chunks| > 0 {
      var c := Chunk(cfg, st, streak, chunks[0]);
      ChunkBound(cfg, st, streak, chunks[0]);
      BoundedStreaksFit(cfg, c.st, c.streak, chunks[1..], cap);
    }
  }

  /** Each byte as an escape pair. */
  function Pairs(body: seq<byte>): seq<byte> {
    if |body| == 0 then [] else [ESCAPE, body[0]] + Pairs(body[1..])
  }

  /** The bound is needed: in frame, escape pairs are stored without limit, one byte each. */
  lemma EscapesFitExactlyWhen(cfg: Config, st: State, streak: nat, body: seq<byte>, cap: nat)
    requires |body| > 0 && !OutOfFrame(cfg, st) && !st.last7d
    ensures Fits(cfg, st, streak, [Pairs(body)], cap) <==> |st.buf| + |body| <= cap
  {
    var src := Pairs(body);
    LoopStoresPairs(cfg, src, Enter(cfg, st, streak, src), body);
    assert src[0..] == src;
    var one := [src];
    assert one[1..] == [];
  }

  lemma {:induction false} LoopStoresPairs(cfg: Config, src: seq<byte>, c: Cursor, body: seq<byte>)
    requires c.p == c.i <= |src| && src[c.i..] == Pairs(body) && !OutOfFrame(cfg, c.st) && !c.st.last7d
    ensures Loop(cfg, src, c).peak == if |body| == 0 then c.peak else Max(c.peak, |c.st.buf| + |body|)
    decreases |body|
  {
    if |body| > 0 {
      var next := Pass(cfg, src, c);
      assert src[c.i] == src[c.i..][0] == ESCAPE && |src| - c.i == |Pairs(body)| >= 2;
      assert src[c.i + 2..] == Pairs(body)[2..] == Pairs(body[1..]);
      assert |next.st.buf| == |c.st.buf| + 1 && next.i == c.i + 2;
      LoopStoresPairs(cfg, src, next, body[1..]);
    }
  }

  // ---------- The loop, pass by pass ----------

  /** One pass, and the length its store reaches. */
  lemma PassStores(cfg: Config, src: seq<byte>, c: Cursor)
    requires c.p <= c.i < |src|
    ensures var b, n := src[c.p], Pass(cfg, src, c);
            Loop(cfg, src, c) == Loop(cfg, src, n) &&
            (if b == ESCAPE && c.i + 1 == |src| then
               n.st == c.st.(last7d := true) && n.i == c.i + 1 && n.p == c.p + 1
             else if b == ESCAPE then
               n.st == Escaped(cfg, c.st, src[c.p + 1]) && n.i == c.i + 2 &&
               n.p == c.p + (if OutOfFrame(cfg, c.st) then 1 else 2)
             else
               n.st == (if b == FLAG then Flag(cfg, c.st) else Plain(cfg, c.st, b)) && n.i == c.i + 1 && n.p == c.p + 1) &&
            (!OutOfFrame(cfg, c.st) || b == FLAG ==>
               (b == ESCAPE && c.i + 1 == |src|) || |c.st.buf| < Loop(cfg, src, c).peak)
  {
    hide Escaped, Flag, Plain;
  }

  lemma EnterStores(cfg: Config, st: State, streak: nat, src: seq<byte>)
    requires |src| > 0
    ensures var c := Enter(cfg, st, streak, src);
            c.st == (if st.last7d then Escaped(cfg, st.(last7d := false), src[0]) else st) &&
            c.i == c.p == (if st.last7d then 1 else 0) &&
            (st.last7d && !OutOfFrame(cfg, st) ==> |st.buf| < Chunk(cfg, st, streak, src).peak)
  {
    hide Escaped, Pass;
  }

  lemma LoopEnds(cfg: Config, src: seq<byte>, c: Cursor)
    requires c.p <= c.i == |src|
    ensures Loop(cfg, src, c) == c
  {
  }

  // ---------- The object ----------

  /** The size of `struct diag_pkt` before its `buf`, on a 64-bit machine. */
  const HEADER_SIZE: nat := 56

  class DiagPkt {
    const cfg: Config
    const buf: array<byte>
    var pktLen: nat
    var last7d: bool
    var errors: nat
    var delivered: seq<seq<byte>>
    ghost var streak: nat

    ghost predicate Valid()
      reads this
    {
      pktLen <= buf.Length
    }

    ghost function Abs(): State
      requires Valid()
      reads this, buf
    {
      State(buf[..pktLen], last7d, errors, delivered)
    }

    /** `diag_pkt_malloc`: the header comes out of the allocation, the rest is packet buffer. */
    constructor (minSize: nat, maxSize: nat, start7e: bool)
      requires (maxSize + minSize) * 2 >= HEADER_SIZE
      ensures Valid() && Abs() == INIT && streak == 0
      ensures cfg == Config(minSize, maxSize, start7e)
      ensures buf.Length == (maxSize + minSize) * 2 - HEADER_SIZE && fresh(buf)
    {
      cfg := Config(minSize, maxSize, start7e);
      buf := new byte[(maxSize + minSize) * 2 - HEADER_SIZE];
      pktLen, last7d, errors, delivered, streak := 0, false, 0, [], 0;
    }

    /** `diag_pkt_input`; its stores must fit the buffer, as `ChunkBound` shows for bounded streaks. */
    method Input(src: seq<byte>)
      requires Valid() && |src| > 0
      requires Chunk(cfg, Abs(), streak, src).peak <= buf.Length
      modifies this, buf
      ensures Valid()
      ensures Abs() == Chunk(cfg, old(Abs()), old(streak), src).st
      ensures streak == Chunk(cfg, old(Abs()), old(streak), src).streak
    {
      hide Loop, Pass, Escaped, Plain, Close;
      ghost var start := Enter(cfg, Abs(), streak, src);
      ghost var c := start;
      var p, i := 0, 0;
      EnterStores(cfg, Abs(), streak, src);
      if last7d {
        last7d := false;
        var _ := StoreEscaped(src[0]);
        p, i := 1, 1;
      }
      while i < |src|
        invariant Valid() && p <= i <= |src|
        invariant c.i == i && c.p == p && c.st == Abs()
        invariant Loop(cfg, src, c) == Loop(cfg, src, start)
      {
        PassStores(cfg, src, c);
        c := Pass(cfg, src, c);
        var b := src[p];
        if b == ESCAPE {
          p, i := p + 1, i + 1;
          if i == |src| {
            last7d := true;
            break;
          }
          var stored := StoreEscaped(src[p]);
          p, i := if stored then p + 1 else p, i + 1;
        } else {
          if b == FLAG {
            Store(FLAG);
            CloseFrame();
          } else {
            StorePlain(b);
          }
          p, i := p + 1, i + 1;
        }
      }
      LoopEnds(cfg, src, c);
      streak := c.streak;
    }

    method Store(b: byte)
      requires Valid() && pktLen < buf.Length
      modifies this`pktLen, buf
      ensures Valid() && Abs() == old(Abs()).(buf := old(Abs()).buf + [b])
    {
      buf[pktLen] := b;
      pktLen := pktLen + 1;
    }

    method StoreEscaped(b: byte) returns (stored: bool)
      requires Valid()
      requires !OutOfFrame(cfg, Abs()) ==> pktLen < buf.Length
      modifies this`pktLen, this`errors, buf
      ensures Valid() && Abs() == Escaped(cfg, old(Abs()), b)
      ensures stored == !OutOfFrame(cfg, old(Abs()))
    {
      stored := !cfg.start7e || pktLen > 0;
      if stored {
        Store(b ^ 0x20);
      } else {
        errors := Bump(errors);
      }
    }

    method CloseFrame()
      requires Valid() && pktLen > 0
      modifies this`pktLen, this`errors, this`delivered
      ensures Valid() && Abs() == Close(cfg, old(Abs()))
    {
      if pktLen >= cfg.minLen {
        delivered := delivered + [buf[..pktLen]];
        pktLen := 0;
      } else if cfg.start7e && pktLen == 1 {
        // start of frame
      } else if cfg.start7e && pktLen == 2 {
        errors := Bump(errors);
        pktLen := 1;
        assert buf[..1] == old(buf[..pktLen])[..1];
      } else {
        errors := Bump(errors);
        pktLen := 0;
      }
    }

    method StorePlain(b: byte)
      requires Valid()
      requires !OutOfFrame(cfg, Abs()) ==> pktLen < buf.Length
      modifies this`pktLen, this`errors, buf
      ensures Valid() && Abs() == Plain(cfg, old(Abs()), b)
    {
      if cfg.start7e && pktLen == 0 {
        errors := Bump(errors);
      } else {
        Store(b);
        if pktLen > cfg.maxLen {
          errors := Bump(errors);
          pktLen := 0;
        }
      }
    }
  }
}
