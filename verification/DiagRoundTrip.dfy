/**
 Frames built by `diag_send_data` read back by `diag_pkt_input`, in both framing modes and through
 any chunking.
 */
module DiagRoundTrip {
  import opened Bytes
  import opened Crc16
  import opened DiagPkt
  import opened DiagSend

  // ---------- A stuffed body ----------

  /**
   The deframer has room for `body` after `have` bytes: from the maximum on, only stuffed bytes come,
   because only plain bytes are checked against it.
   */
  predicate Room(cfg: Config, have: nat, body: seq<byte>) {
    forall k | 0 <= k < |body| && have + k >= cfg.maxLen :: Special(body[k])
  }

  /** Inside a packet, a stuffed body is appended unchanged if there is room, and else something is lost. */
  lemma {:induction false} RunStuffed(cfg: Config, st: State, body: seq<byte>)
    requires !st.last7d && !OutOfFrame(cfg, st)
    ensures Room(cfg, |st.buf|, body) ==>
              Run(cfg, st, Stuff(body)) == st.(buf := st.buf + body) && InFrame(cfg, st, Stuff(body))
    ensures var r := Run(cfg, st, Stuff(body)); !r.last7d && r.delivered == st.delivered
    ensures !Room(cfg, |st.buf|, body) ==> |Run(cfg, st, Stuff(body)).buf| < |st.buf| + |body|
    decreases |body|
  {
    if |body| == 0 {
      assert st.buf + body == st.buf;
    } else {
      var init, b := body[..|body| - 1], body[|body| - 1];
      RunStuffed(cfg, st, init);
      StuffLast(body);
      RoomLast(cfg, |st.buf|, body);
      hide Run, Stuff, StuffByte, InFrame, Room, OutOfFrame;
      var mid := Run(cfg, st, Stuff(init));
      RunAppend(cfg, st, Stuff(init), StuffByte(b));
      RunStuffedByte(cfg, mid, b);
      if Room(cfg, |st.buf|, init) {
        StaysInFrame(cfg, st, mid, init);
        if Room(cfg, |st.buf|, body) {
          InFrameAppend(cfg, st, Stuff(init), StuffByte(b));
          assert st.buf + init + [b] == st.buf + body;
        }
      }
    }
  }

  lemma StuffLast(body: seq<byte>)
    requires |body| > 0
    ensures Stuff(body) == Stuff(body[..|body| - 1]) + StuffByte(body[|body| - 1])
  {
  }

  lemma RoomLast(cfg: Config, have: nat, body: seq<byte>)
    requires |body| > 0
    ensures Room(cfg, have, body) <==>
            Room(cfg, have, body[..|body| - 1]) &&
            (have + |body| - 1 >= cfg.maxLen ==> Special(body[|body| - 1]))
  {
    var init := body[..|body| - 1];
    assert forall k | 0 <= k < |init| :: body[k] == init[k];
  }

  lemma StaysInFrame(cfg: Config, st: State, mid: State, more: seq<byte>)
    requires !OutOfFrame(cfg, st) && mid == st.(buf := st.buf + more)
    ensures !OutOfFrame(cfg, mid)
  {
  }

  lemma RunStuffedByte(cfg: Config, st: State, b: byte)
    requires !st.last7d
    ensures var r := Run(cfg, st, StuffByte(b));
            !r.last7d && r.delivered == st.delivered &&
            if !OutOfFrame(cfg, st) && (Special(b) || |st.buf| < cfg.maxLen)
            then r == st.(buf := st.buf + [b]) && InFrame(cfg, st, StuffByte(b))
            else |r.buf| <= |st.buf| && (!OutOfFrame(cfg, st) ==> r.buf == [])
  {
    var s := StuffByte(b);
    var one := Step(cfg, st, s[0]);
    if Special(b) {
      UnstuffSpecial(b);
      assert s[1..] == [0x20 ^ b] && s[1..][1..] == [];
      assert Run(cfg, st, s) == Run(cfg, one, s[1..]) == Step(cfg, one, 0x20 ^ b);
    } else {
      assert s[1..] == [];
      assert Run(cfg, st, s) == one;
    }
  }

  lemma {:induction false} InFrameAppend(cfg: Config, st: State, a: seq<byte>, b: seq<byte>)
    requires InFrame(cfg, st, a) && !Run(cfg, st, a).last7d
    requires InFrame(cfg, Run(cfg, st, a), b)
    ensures InFrame(cfg, st, a + b)
    decreases |a|
  {
    if |a| == 0 {
      assert a + b == b;
    } else {
      assert (a + b)[1..] == a[1..] + b;
      InFrameAppend(cfg, Step(cfg, st, a[0]), a[1..], b);
    }
  }

  lemma RunFlag(cfg: Config, st: State, before: seq<byte>)
    requires !Run(cfg, st, before).last7d
    ensures Run(cfg, st, before + [FLAG]) == Flag(cfg, Run(cfg, st, before))
    ensures InFrame(cfg, st, before) ==> InFrame(cfg, st, before + [FLAG])
  {
    var mid := Run(cfg, st, before);
    RunAppend(cfg, st, before, [FLAG]);
    assert Run(cfg, mid, [FLAG]) == Step(cfg, mid, FLAG);
    if InFrame(cfg, st, before) { InFrameAppend(cfg, st, before, [FLAG]); }
  }

  // ---------- Without start flags ----------

  predicate Clean(st: State) {
    st.buf == [] && !st.last7d
  }

  predicate EndsInFlag(msg: seq<byte>) {
    |msg| > 0 && msg[|msg| - 1] == FLAG
  }

  predicate Deliverable(cfg: Config, msg: seq<byte>)
    requires |msg| > 0
  {
    cfg.minLen <= |msg| && Room(cfg, 0, msg[..|msg| - 1])
  }

  /** One frame, read from a clean state, delivers its message and nothing else, exactly when it can. */
  lemma RunFrame(cfg: Config, st: State, msg: seq<byte>)
    requires !cfg.start7e && Clean(st) && EndsInFlag(msg)
    ensures Deliverable(cfg, msg) ==>
              Run(cfg, st, Frame(msg)) == st.(delivered := st.delivered + [msg])
    ensures !Deliverable(cfg, msg) ==>
              Run(cfg, st, Frame(msg)).delivered != st.delivered + [msg]
    ensures Clean(Run(cfg, st, Frame(msg)))
  {
    hide Run, Stuff, InFrame, StuffByte;
    var body := msg[..|msg| - 1];
    var mid := Run(cfg, st, Stuff(body));
    RunStuffed(cfg, st, body);
    RunFlag(cfg, st, Stuff(body));
    if Room(cfg, 0, body) {
      assert st.buf + body == body && mid.buf + [FLAG] == msg;
    } else {
      assert |mid.buf + [FLAG]| < |msg|;
      LastDiffers(st.delivered, mid.buf + [FLAG], msg);
    }
  }

  lemma LastDiffers(d: seq<seq<byte>>, x: seq<byte>, y: seq<byte>)
    requires x != y
    ensures d + [x] != d + [y] && d != d + [y]
  {
    assert (d + [x])[|d|] == x && (d + [y])[|d|] == y;
  }

  /** Every length from the minimum to one more than the maximum is deliverable. */
  lemma LengthsDeliver(cfg: Config, msg: seq<byte>)
    requires |msg| > 0 && cfg.minLen <= |msg| <= cfg.maxLen + 1
    ensures Deliverable(cfg, msg)
  {
  }

  predicate AllDeliverable(cfg: Config, msgs: seq<seq<byte>>) {
    forall k | 0 <= k < |msgs| :: EndsInFlag(msgs[k]) && Deliverable(cfg, msgs[k])
  }

  /** The frames one after the other. */
  function Wire(msgs: seq<seq<byte>>): seq<byte>
    requires forall k | 0 <= k < |msgs| :: |msgs[k]| > 0
  {
    if |msgs| == 0 then [] else Frame(msgs[0]) + Wire(msgs[1..])
  }

  lemma {:induction false} RunWire(cfg: Config, st: State, msgs: seq<seq<byte>>)
    requires !cfg.start7e && Clean(st) && AllDeliverable(cfg, msgs)
    ensures Run(cfg, st, Wire(msgs)) == st.(delivered := st.delivered + msgs)
    decreases |msgs|
  {
    if |msgs| == 0 {
      assert st.delivered + msgs == st.delivered;
    } else {
      RunAppend(cfg, st, Frame(msgs[0]), Wire(msgs[1..]));
      RunFrame(cfg, st, msgs[0]);
      RunWire(cfg, st.(delivered := st.delivered + [msgs[0]]), msgs[1..]);
      assert st.delivered + [msgs[0]] + msgs[1..] == st.delivered + msgs;
    }
  }

  /** A stream of frames, cut anywhere, is delivered message by message without an error. */
  lemma StreamRoundTrip(cfg: Config, chunks: seq<seq<byte>>, msgs: seq<seq<byte>>)
    requires !cfg.start7e && AllDeliverable(cfg, msgs)
    requires NonEmpty(chunks) && Flatten(chunks) == Wire(msgs)
    ensures Feed(cfg, INIT, 0, chunks) == INIT.(delivered := msgs)
  {
    FeedIsRunWithoutStartFlag(cfg, INIT, 0, chunks);
    RunWire(cfg, INIT, msgs);
  }

  /** After any noise, one unescaped 0x7E is enough: every later frame is delivered. */
  lemma SelfSynchronising(
      cfg: Config, st: State, streak: nat, chunks: seq<seq<byte>>, noise: seq<byte>, msgs: seq<seq<byte>>)
    requires !cfg.start7e && AllDeliverable(cfg, msgs) && !Run(cfg, st, noise).last7d
    requires NonEmpty(chunks) && Flatten(chunks) == noise + [FLAG] + Wire(msgs)
    ensures var synced := Run(cfg, st, noise + [FLAG]);
            Feed(cfg, st, streak, chunks) == synced.(delivered := synced.delivered + msgs)
  {
    FeedIsRunWithoutStartFlag(cfg, st, streak, chunks);
    FlagResets(cfg, st, noise);
    RunAppend(cfg, st, noise + [FLAG], Wire(msgs));
    RunWire(cfg, Run(cfg, st, noise + [FLAG]), msgs);
  }

  /** End to end: payloads come back complete, and each one passes the receiver's check. */
  lemma PayloadRoundTrip(cfg: Config, chunks: seq<seq<byte>>, payloads: seq<seq<byte>>)
    requires !cfg.start7e && NonEmpty(chunks)
    requires forall k | 0 <= k < |payloads| :: cfg.minLen <= |payloads[k]| + 3 <= cfg.maxLen + 1
    requires Flatten(chunks) == Wire(seq(|payloads|, k requires 0 <= k < |payloads| => Message(payloads[k])))
    ensures var got := Feed(cfg, INIT, 0, chunks).delivered;
            |got| == |payloads| &&
            forall k | 0 <= k < |got| ::
              got[k] == Message(payloads[k]) && Fcs(got[k][..|got[k]| - 1]) == GOOD_FCS
  {
    var msgs := seq(|payloads|, k requires 0 <= k < |payloads| => Message(payloads[k]));
    forall k | 0 <= k < |msgs|
      ensures EndsInFlag(msgs[k]) && Deliverable(cfg, msgs[k])
      ensures Fcs(msgs[k][..|msgs[k]| - 1]) == GOOD_FCS
    {
      LengthsDeliver(cfg, msgs[k]);
      MessageChecks(payloads[k]);
    }
    StreamRoundTrip(cfg, chunks, msgs);
  }

  lemma MessageChecks(payload: seq<byte>)
    ensures Fcs(Message(payload)[..|payload| + 2]) == GOOD_FCS
  {
    var s := FcsBytes(payload);
    assert s == [s[0], s[1]];
    ReceiverCheck(payload, s[0], s[1]);
    assert Message(payload)[..|payload| + 2] == payload + s;
  }

  // ---------- With start flags ----------

  /** Bytes between frames and the body of the frame that follows them. */
  datatype Item = Item(gap: seq<byte>, body: seq<byte>)

  function Delimited(body: seq<byte>): seq<byte> {
    [FLAG] + Stuff(body) + [FLAG]
  }

  function Packet(body: seq<byte>): seq<byte> {
    [FLAG] + body + [FLAG]
  }

  predicate GoodItem(cfg: Config, item: Item) {
    (forall b | b in item.gap :: !Special(b)) && Room(cfg, 1, item.body) && |item.body| + 2 >= cfg.minLen
  }

  function ItemWire(items: seq<Item>): seq<byte> {
    if |items| == 0 then [] else items[0].gap + Delimited(items[0].body) + ItemWire(items[1..])
  }

  function Packets(items: seq<Item>): seq<seq<byte>> {
    if |items| == 0 then [] else [Packet(items[0].body)] + Packets(items[1..])
  }

  lemma {:induction false} RunGap(cfg: Config, st: State, gap: seq<byte>)
    requires cfg.start7e && Clean(st) && forall b | b in gap :: !Special(b)
    ensures var r := Run(cfg, st, gap); Clean(r) && r.delivered == st.delivered
    ensures InFrame(cfg, st, gap)
    decreases |gap|
  {
    if |gap| > 0 {
      assert !Special(gap[0]);
      RunGap(cfg, Step(cfg, st, gap[0]), gap[1..]);
    }
  }

  lemma RunDelimited(cfg: Config, st: State, body: seq<byte>)
    requires cfg.start7e && cfg.minLen >= 2 && Clean(st)
    requires Room(cfg, 1, body) && |body| + 2 >= cfg.minLen
    ensures Run(cfg, st, Delimited(body)) == st.(delivered := st.delivered + [Packet(body)])
    ensures InFrame(cfg, st, Delimited(body))
  {
    var open := st.(buf := [FLAG]);
    assert [] + [FLAG] == [FLAG] && Run(cfg, st, []) == st;
    RunFlag(cfg, st, []);
    RunStuffed(cfg, open, body);
    RunAppend(cfg, st, [FLAG], Stuff(body));
    InFrameAppend(cfg, st, [FLAG], Stuff(body));
    RunFlag(cfg, st, [FLAG] + Stuff(body));
  }

  function OneItem(item: Item): seq<byte> {
    item.gap + Delimited(item.body)
  }

  lemma RunItem(cfg: Config, st: State, item: Item)
    requires cfg.start7e && cfg.minLen >= 2 && Clean(st) && GoodItem(cfg, item)
    ensures var r := Run(cfg, st, OneItem(item)); Clean(r) && r.delivered == st.delivered + [Packet(item.body)]
    ensures InFrame(cfg, st, OneItem(item))
  {
    var atFrame := Run(cfg, st, item.gap);
    RunGap(cfg, st, item.gap);
    hide Run, InFrame, Delimited, Packet;
    RunDelimited(cfg, atFrame, item.body);
    RunAppend(cfg, st, item.gap, Delimited(item.body));
    InFrameAppend(cfg, st, item.gap, Delimited(item.body));
  }

  lemma {:induction false} RunItems(cfg: Config, st: State, items: seq<Item>)
    requires cfg.start7e && cfg.minLen >= 2 && Clean(st)
    requires forall k | 0 <= k < |items| :: GoodItem(cfg, items[k])
    ensures Run(cfg, st, ItemWire(items)).delivered == st.delivered + Packets(items)
    ensures InFrame(cfg, st, ItemWire(items))
    decreases |items|
  {
    if |items| > 0 {
      var first, rest := OneItem(items[0]), ItemWire(items[1..]);
      assert ItemWire(items) == first + rest && GoodItem(cfg, items[0]);
      assert Packets(items) == [Packet(items[0].body)] + Packets(items[1..]);
      var next := Run(cfg, st, first);
      hide *;
      RunItem(cfg, st, items[0]);
      IsClean(next);
      RunItems(cfg, next, items[1..]);
      RunAppend(cfg, st, first, rest);
      InFrameAppend(cfg, st, first, rest);
      Regroup(st.delivered, [Packet(items[0].body)], Packets(items[1..]));
    }
  }

  lemma IsClean(st: State)
    requires Clean(st)
    ensures !st.last7d
  {
  }

  /** Delimited frames with plain bytes between them, cut anywhere, are delivered frame by frame. */
  lemma DelimitedRoundTrip(cfg: Config, chunks: seq<seq<byte>>, items: seq<Item>)
    requires cfg.start7e && cfg.minLen >= 2 && NonEmpty(chunks)
    requires forall k | 0 <= k < |items| :: GoodItem(cfg, items[k])
    requires Flatten(chunks) == ItemWire(items)
    ensures Feed(cfg, INIT, 0, chunks).delivered == Packets(items)
  {
    RunItems(cfg, INIT, items);
    InFrameSplits(cfg, INIT, chunks);
    FeedIsRun(cfg, INIT, 0, chunks);
  }

  // ---------- Getting back into step with start flags ----------

  /** A packet is open: its start flag has been read. */
  predicate Open(st: State) {
    st.buf == [FLAG] && !st.last7d
  }

  /** The settings under which 7E 7E is two flags, not a packet; those of unisoc.c are of this kind. */
  predicate TwoFlags(cfg: Config) {
    cfg.start7e && cfg.minLen >= 3 && cfg.maxLen > 0
  }

  predicate GoodBody(cfg: Config, body: seq<byte>) {
    |body| > 0 && Room(cfg, 1, body) && |body| + 2 >= cfg.minLen
  }

  /** A stuffed body and its closing flag, with the packet open. */
  lemma RunOpenBody(cfg: Config, st: State, body: seq<byte>)
    requires TwoFlags(cfg) && Open(st) && GoodBody(cfg, body)
    ensures Run(cfg, st, Stuff(body) + [FLAG]) == st.(buf := [], delivered := st.delivered + [Packet(body)])
    ensures InFrame(cfg, st, Stuff(body) + [FLAG])
  {
    RunStuffed(cfg, st, body);
    RunFlag(cfg, st, Stuff(body));
  }

  /** Out of frame a stuffed body is thrown away, and its closing flag opens a packet. */
  lemma RunLostBody(cfg: Config, st: State, body: seq<byte>)
    requires TwoFlags(cfg) && Clean(st)
    ensures var r := Run(cfg, st, Stuff(body) + [FLAG]); Open(r) && r.delivered == st.delivered
    ensures (forall b | b in body :: !Special(b)) ==> InFrame(cfg, st, Stuff(body) + [FLAG])
  {
    RunSkipped(cfg, st, body);
    RunFlag(cfg, st, Stuff(body));
    assert [] + [FLAG] == [FLAG];
  }

  lemma {:induction false} RunSkipped(cfg: Config, st: State, body: seq<byte>)
    requires cfg.start7e && Clean(st)
    ensures var r := Run(cfg, st, Stuff(body)); Clean(r) && r.delivered == st.delivered
    ensures (forall b | b in body :: !Special(b)) ==> InFrame(cfg, st, Stuff(body))
    decreases |body|
  {
    if |body| > 0 {
      var init, b := body[..|body| - 1], body[|body| - 1];
      RunSkipped(cfg, st, init);
      StuffLast(body);
      var mid := Run(cfg, st, Stuff(init));
      RunAppend(cfg, st, Stuff(init), StuffByte(b));
      RunSkippedByte(cfg, mid, b);
      if forall x | x in body :: !Special(x) {
        assert forall x | x in init :: x in body;
        assert b in body;
        InFrameAppend(cfg, st, Stuff(init), StuffByte(b));
      }
    }
  }

  lemma RunSkippedByte(cfg: Config, st: State, b: byte)
    requires cfg.start7e && Clean(st)
    ensures var r := Run(cfg, st, StuffByte(b)); Clean(r) && r.delivered == st.delivered
    ensures !Special(b) ==> InFrame(cfg, st, StuffByte(b))
  {
    RunStuffedByte(cfg, st, b);
  }

  /** Plain bytes behind an open start flag: collected, or too many, and then the packet is given up. */
  lemma {:induction false} RunGapInside(cfg: Config, st: State, gap: seq<byte>)
    requires TwoFlags(cfg) && Open(st) && forall b | b in gap :: !Special(b)
    ensures var r := Run(cfg, st, gap);
            !r.last7d && r.delivered == st.delivered &&
            r.buf == if |gap| >= cfg.maxLen then [] else [FLAG] + gap
    decreases |gap|
  {
    if |gap| == 0 {
      assert [FLAG] + gap == [FLAG];
    } else {
      var init, b := gap[..|gap| - 1], gap[|gap| - 1];
      assert gap == init + [b] && b in gap && forall x | x in init :: x in gap;
      RunGapInside(cfg, st, init);
      RunAppend(cfg, st, init, [b]);
      OneByte(cfg, Run(cfg, st, init), b);
      assert [FLAG] + init + [b] == [FLAG] + gap;
    }
  }

  /**
   Once out of step, with a packet open where none should be, the deframer gets back into step with the
   next frame exactly when nothing, or at least the maximum of plain bytes, comes before that frame.
   */
  lemma InStepExactlyWhen(cfg: Config, st: State, gap: seq<byte>, body: seq<byte>)
    requires TwoFlags(cfg) && Open(st) && GoodBody(cfg, body) && forall b | b in gap :: !Special(b)
    ensures var r := Run(cfg, st, gap + Delimited(body));
            if gap == [] || |gap| >= cfg.maxLen
            then Clean(r) && r.delivered == st.delivered + [Packet(body)]
            else Open(r) && r.delivered in {st.delivered, st.delivered + [Packet(gap)]}
  {
    var mid := Run(cfg, st, gap);
    RunGapInside(cfg, st, gap);
    var first := Flag(cfg, mid);
    FirstFlag(cfg, st, mid, gap);
    SplitDelimited(gap, body);
    hide Run, Stuff, Flag, GoodBody, Packet, Delimited;
    RunAppend(cfg, st, gap, [FLAG] + (Stuff(body) + [FLAG]));
    RunAppend(cfg, mid, [FLAG], Stuff(body) + [FLAG]);
    FlagStep(cfg, mid);
    if gap == [] || |gap| >= cfg.maxLen {
      RunOpenBody(cfg, first, body);
    } else {
      RunLostBody(cfg, first, body);
    }
  }

  lemma FlagStep(cfg: Config, st: State)
    requires !st.last7d
    ensures Run(cfg, st, [FLAG]) == Flag(cfg, st) && InFrame(cfg, st, [FLAG])
  {
    OneByte(cfg, st, FLAG);
  }

  lemma SplitDelimited(gap: seq<byte>, body: seq<byte>)
    ensures gap + Delimited(body) == gap + ([FLAG] + (Stuff(body) + [FLAG]))
  {
    assert [FLAG] + Stuff(body) + [FLAG] == [FLAG] + (Stuff(body) + [FLAG]);
  }

  /** The flag behind such a gap. */
  lemma FirstFlag(cfg: Config, st: State, mid: State, gap: seq<byte>)
    requires TwoFlags(cfg) && Open(st) && !mid.last7d && mid.delivered == st.delivered
    requires mid.buf == if |gap| >= cfg.maxLen then [] else [FLAG] + gap
    ensures var r := Flag(cfg, mid);
            if gap == [] || |gap| >= cfg.maxLen then Open(r) && r.delivered == st.delivered
            else Clean(r) && r.delivered in {st.delivered, st.delivered + [Packet(gap)]}
  {
    assert [FLAG] + gap + [FLAG] == Packet(gap);
    assert [] + [FLAG] == [FLAG] && ([FLAG] + [FLAG])[..1] == [FLAG];
    assert gap == [] ==> [FLAG] + gap == [FLAG];
  }

  /** From any state between flags, one frame leaves the deframer between frames or with a packet open. */
  lemma AfterOneFrame(cfg: Config, st: State, gap: seq<byte>, body: seq<byte>)
    requires TwoFlags(cfg) && GoodBody(cfg, body) && Framed(cfg, st) && !st.last7d
    requires forall b | b in gap :: !Special(b)
    ensures var r := Run(cfg, st, gap + Delimited(body));
            (Clean(r) || Open(r)) && st.delivered <= r.delivered
    ensures (forall b | b in body :: !Special(b)) ==> InFrame(cfg, st, gap + Delimited(body))
  {
    var mid := Run(cfg, st, gap);
    RunPlain(cfg, st, gap);
    var first, rest := Flag(cfg, mid), Stuff(body) + [FLAG];
    assert Clean(first) || Open(first);
    SplitDelimited(gap, body);
    FlagStep(cfg, mid);
    hide Run, Stuff, Flag, GoodBody, Packet, Delimited, InFrame;
    RunAppend(cfg, st, gap, [FLAG] + rest);
    RunAppend(cfg, mid, [FLAG], rest);
    if Open(first) { RunOpenBody(cfg, first, body); } else { RunLostBody(cfg, first, body); }
    if forall b | b in body :: !Special(b) {
      InFrameAppend(cfg, mid, [FLAG], rest);
      InFrameAppend(cfg, st, gap, [FLAG] + rest);
    }
  }

  lemma {:induction false} RunPlain(cfg: Config, st: State, gap: seq<byte>)
    requires Framed(cfg, st) && !st.last7d && forall b | b in gap :: !Special(b)
    ensures var r := Run(cfg, st, gap); Framed(cfg, r) && !r.last7d && r.delivered == st.delivered
    ensures InFrame(cfg, st, gap)
    decreases |gap|
  {
    if |gap| > 0 {
      assert !Special(gap[0]);
      PlainKeepsFramed(cfg, st, gap[0]);
      RunPlain(cfg, Step(cfg, st, gap[0]), gap[1..]);
    }
  }

  /** The frame directly behind such a frame is delivered in either case. */
  lemma SecondFrame(cfg: Config, st: State, item: Item)
    requires TwoFlags(cfg) && (Clean(st) || Open(st)) && GoodItem(cfg, item) && |item.body| > 0 && item.gap == []
    ensures var r := Run(cfg, st, OneItem(item)); Clean(r) && r.delivered == st.delivered + [Packet(item.body)]
    ensures InFrame(cfg, st, OneItem(item))
  {
    if Clean(st) {
      RunItem(cfg, st, item);
    } else {
      InStepExactlyWhen(cfg, st, [], item.body);
      SplitDelimited([], item.body);
      FlagStep(cfg, st);
      assert [FLAG] + [FLAG] == [FLAG, FLAG] && [FLAG, FLAG][..1] == [FLAG];
      assert Open(Flag(cfg, st));
      hide Run, Stuff, InFrame, Delimited;
      RunOpenBody(cfg, Flag(cfg, st), item.body);
      InFrameAppend(cfg, st, [FLAG], Stuff(item.body) + [FLAG]);
      assert [] + ([FLAG] + (Stuff(item.body) + [FLAG])) == [FLAG] + (Stuff(item.body) + [FLAG]);
    }
  }

  predicate GoodItems(cfg: Config, items: seq<Item>) {
    forall k | 0 <= k < |items| :: GoodItem(cfg, items[k]) && |items[k].body| > 0
  }

  /**
   After any noise at most one frame is lost: when the second frame follows the first one directly, it and
   all later frames are delivered, in order.
   */
  lemma BackInStep(cfg: Config, st: State, items: seq<Item>)
    requires TwoFlags(cfg) && Framed(cfg, st) && !st.last7d && |items| > 1 && items[1].gap == []
    requires GoodItems(cfg, items)
    ensures var r, first := Run(cfg, st, ItemWire(items)), Run(cfg, st, OneItem(items[0]));
            st.delivered <= first.delivered && r.delivered == first.delivered + Packets(items[1..])
    ensures (forall b | b in items[0].body :: !Special(b)) ==> InFrame(cfg, st, ItemWire(items))
  {
    hide *;
    TwoItems(cfg, items);
    BackInStepBehind(cfg, st, items[0], items[1], items[2..]);
  }

  lemma BackInStepBehind(cfg: Config, st: State, one: Item, two: Item, items: seq<Item>)
    requires TwoFlags(cfg) && Framed(cfg, st) && !st.last7d && two.gap == []
    requires GoodBody(cfg, one.body) && (forall b | b in one.gap :: !Special(b)) && GoodItem(cfg, two) && |two.body| > 0
    requires forall k | 0 <= k < |items| :: GoodItem(cfg, items[k])
    ensures var r, first := Run(cfg, st, OneItem(one) + (OneItem(two) + ItemWire(items))), Run(cfg, st, OneItem(one));
            st.delivered <= first.delivered && r.delivered == first.delivered + ([Packet(two.body)] + Packets(items))
    ensures (forall b | b in one.body :: !Special(b)) ==> InFrame(cfg, st, OneItem(one) + (OneItem(two) + ItemWire(items)))
  {
    var first, second, rest := OneItem(one), OneItem(two), ItemWire(items);
    var mid := Run(cfg, st, first);
    hide *;
    LostOrNot(cfg, st, one);
    SecondFrame(cfg, mid, two);
    LaterItems(cfg, Run(cfg, mid, second), items);
    ThreeRuns(cfg, st, first, second, rest);
    Regroup(mid.delivered, [Packet(two.body)], Packets(items));
  }

  lemma LostOrNot(cfg: Config, st: State, one: Item)
    requires TwoFlags(cfg) && Framed(cfg, st) && !st.last7d
    requires GoodBody(cfg, one.body) && forall b | b in one.gap :: !Special(b)
    ensures var mid := Run(cfg, st, OneItem(one)); (Clean(mid) || Open(mid)) && !mid.last7d && st.delivered <= mid.delivered
    ensures (forall b | b in one.body :: !Special(b)) ==> InFrame(cfg, st, OneItem(one))
  {
    hide Run, InFrame, Delimited, Framed, GoodBody;
    AfterOneFrame(cfg, st, one.gap, one.body);
  }

  lemma LaterItems(cfg: Config, st: State, items: seq<Item>)
    requires TwoFlags(cfg) && Clean(st) && forall k | 0 <= k < |items| :: GoodItem(cfg, items[k])
    ensures Run(cfg, st, ItemWire(items)).delivered == st.delivered + Packets(items)
    ensures InFrame(cfg, st, ItemWire(items)) && !st.last7d
  {
    hide Run, InFrame, ItemWire, Packets, GoodItem;
    RunItems(cfg, st, items);
  }

  lemma Regroup(a: seq<seq<byte>>, b: seq<seq<byte>>, c: seq<seq<byte>>)
    ensures a + b + c == a + (b + c)
  {
  }

  /** Three parts read one after the other; they are in frame together when each is by itself. */
  lemma ThreeRuns(cfg: Config, st: State, a: seq<byte>, b: seq<byte>, c: seq<byte>)
    ensures var mid := Run(cfg, st, a);
            var next := Run(cfg, mid, b);
            Run(cfg, st, a + (b + c)) == Run(cfg, next, c) &&
            (InFrame(cfg, st, a) && !mid.last7d && InFrame(cfg, mid, b) && !next.last7d && InFrame(cfg, next, c) ==>
               InFrame(cfg, st, a + (b + c)))
  {
    hide Run, InFrame;
    var mid := Run(cfg, st, a);
    var next := Run(cfg, mid, b);
    RunAppend(cfg, st, a, b + c);
    RunAppend(cfg, mid, b, c);
    if InFrame(cfg, st, a) && !mid.last7d && InFrame(cfg, mid, b) && !next.last7d && InFrame(cfg, next, c) {
      InFrameAppend(cfg, mid, b, c);
      InFrameAppend(cfg, st, a, b + c);
    }
  }

  lemma TwoItems(cfg: Config, items: seq<Item>)
    requires |items| > 1 && GoodItems(cfg, items)
    ensures ItemWire(items) == OneItem(items[0]) + (OneItem(items[1]) + ItemWire(items[2..]))
    ensures Packets(items[1..]) == [Packet(items[1].body)] + Packets(items[2..])
    ensures GoodBody(cfg, items[0].body) && (forall b | b in items[0].gap :: !Special(b)) && GoodItem(cfg, items[1])
    ensures |items[1].body| > 0 && forall k | 0 <= k < |items[2..]| :: GoodItem(cfg, items[2..][k])
  {
    hide Delimited, Packet;
    assert items[1..][0] == items[1] && items[1..][1..] == items[2..];
    assert GoodItem(cfg, items[0]);
  }

  /** Noise without 0x7D, however it left the deframer. */
  lemma {:induction false} RunNoise(cfg: Config, st: State, noise: seq<byte>)
    requires Framed(cfg, st) && !st.last7d && ESCAPE !in noise
    ensures Framed(cfg, Run(cfg, st, noise)) && !Run(cfg, st, noise).last7d && InFrame(cfg, st, noise)
    decreases |noise|
  {
    hide Framed;
    if |noise| > 0 {
      assert noise[0] != ESCAPE;
      PlainKeepsFramed(cfg, st, noise[0]);
      FlagKeepsFramed(cfg, st);
      RunNoise(cfg, Step(cfg, st, noise[0]), noise[1..]);
    }
  }

  /** And so it is through any chunking, if no escape pair lies in the noise or in the frame that may be lost. */
  lemma BackInStepInChunks(cfg: Config, chunks: seq<seq<byte>>, noise: seq<byte>, items: seq<Item>)
    requires TwoFlags(cfg) && NonEmpty(chunks) && |items| > 1 && items[1].gap == [] && GoodItems(cfg, items)
    requires ESCAPE !in noise && forall b | b in items[0].body :: !Special(b)
    requires Flatten(chunks) == noise + ItemWire(items)
    ensures var before := Run(cfg, INIT, noise + OneItem(items[0])).delivered;
            Run(cfg, INIT, noise).delivered <= before &&
            Feed(cfg, INIT, 0, chunks).delivered == before + Packets(items[1..])
  {
    InitIsFramed(cfg);
    assert !INIT.last7d;
    hide Run, InFrame, InFrameChunks, Feed, ItemWire, Framed, OneItem, GoodItems, Packets;
    RunNoise(cfg, INIT, noise);
    var st := Run(cfg, INIT, noise);
    BackInStep(cfg, st, items);
    RunAppend(cfg, INIT, noise, ItemWire(items));
    RunAppend(cfg, INIT, noise, OneItem(items[0]));
    InFrameAppend(cfg, INIT, noise, ItemWire(items));
    InFrameSplits(cfg, INIT, chunks);
    FeedIsRun(cfg, INIT, 0, chunks);
  }
}
