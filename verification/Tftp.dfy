/**
 The TFTP sender of tftp.c: `tftp_write_thread` and `tftp_send_data_pkt`, with N_DATA = 1, as a state
 machine over its system calls, talking to the receiver of RFC 1350 over FIFO channels that lose and
 duplicate packets.
 */
module Tftp {
  import opened Bytes

  const MAX_RETRY: nat := 12

  /** Block numbers on the wire have sixteen bits. */
  function Wire(block: nat): (w: nat)
    ensures w < 0x1_0000
  {
    block % 0x1_0000
  }

  datatype Data = Data(block: nat, payload: seq<byte>)
  datatype Reply = Ack(block: nat) | Oack

  /** An assertion of tftp.c, by its line; 407 is the end of the retries. */
  datatype Phase =
    | Idle                                    // polling in the thread
    | Try(tries: nat, send: bool, last: bool) // top of the retry loop in tftp_send_data_pkt
    | Wait(tries: nat, last: bool)            // polling there for a reply
    | Done
    | Failed(line: nat)

  /**
   `buf` is the packet buffer up to `cur`; `tx` and `rx` are `tx_block` and `rx_block`. For the
   statements, `confirmed` counts the successful calls and `done` holds their bytes.
   */
  datatype Sender = Sender(
    phase: Phase, tx: nat, rx: nat, buf: seq<byte>, pipeOpen: bool, reSend: nat, confirmed: nat, done: seq<byte>)

  /** RFC 1350: `last` is the last block accepted; `count` counts the accepted blocks. */
  datatype Receiver = Receiver(last: nat, file: seq<byte>, finished: bool, count: nat)

  datatype State = State(snd: Sender, data: seq<Data>, acks: seq<Reply>, rcv: Receiver)

  /** What the system, the network or the receiver does next. */
  datatype Event =
    | PollTimeout
    | RecvReply
    | ReadPipe(chunk: seq<byte>)
    | PipeEnds
    | Leave
    | SendTry
    | RecvData
    | LoseData(i: nat)
    | CopyData(i: nat)
    | LoseAck(i: nat)
    | CopyAck(i: nat)

  /** The thread right after the receiver answered the write request, once or several times. */
  predicate Init(s: State) {
    s.snd == Sender(Idle, 1, 0, [], true, 0, 0, []) && s.data == [] && (forall a | a in s.acks :: a == Oack) &&
    s.rcv == Receiver(0, [], false, 0)
  }

  predicate Enabled(bs: nat, s: State, e: Event) {
    match e
    case PollTimeout => s.snd.phase.Wait? || (s.snd.phase.Idle? && s.snd.pipeOpen)
    case RecvReply => |s.acks| > 0 && (s.snd.phase.Wait? || (s.snd.phase.Idle? && s.snd.pipeOpen))
    case ReadPipe(chunk) => s.snd.phase.Idle? && s.snd.pipeOpen && 0 < |chunk| <= bs - |s.snd.buf|
    case PipeEnds => s.snd.phase.Idle? && s.snd.pipeOpen
    case Leave => s.snd.phase.Idle? && !s.snd.pipeOpen
    case SendTry => s.snd.phase.Try?
    case RecvData => |s.data| > 0
    case LoseData(i) => i < |s.data|
    case CopyData(i) => i < |s.data|
    case LoseAck(i) => i < |s.acks|
    case CopyAck(i) => i < |s.acks|
  }

  // ---------- The sender ----------

  function NextTry(tries: nat, send: bool, last: bool): Phase {
    if tries + 1 < MAX_RETRY then Try(tries + 1, send, last) else Failed(407)
  }

  /** `tftp_send_data_pkt` returned; the caller goes on. */
  function Returned(snd: Sender): Sender
    requires snd.phase.Wait?
  {
    var done := snd.(confirmed := snd.confirmed + 1, done := snd.done + snd.buf, buf := [],
                     tx := (snd.tx + 1) % 0x1_0000_0000);
    if snd.phase.last then done.(phase := Done) else done.(phase := Idle, rx := Wire(snd.tx))
  }

  function ReplyInCall(snd: Sender, r: Reply): Sender
    requires snd.phase.Wait?
  {
    if r == Ack(Wire(snd.tx)) then Returned(snd)
    else snd.(phase := NextTry(snd.phase.tries, !r.Ack?, snd.phase.last))
  }

  /** A reply between two calls: no block is outstanding, so every `state[]` entry is zero. */
  function ReplyInThread(snd: Sender, r: Reply): Sender {
    if r.Oack? then snd
    else if snd.rx + 1 == r.block then snd.(phase := Failed(160))
    else if snd.rx == r.block then snd
    else if (r.block - snd.rx) % 0x1_0000 <= 1 then snd.(phase := Failed(194))
    else snd.(phase := Failed(201))
  }

  function ThreadTimeout(snd: Sender): Sender {
    if snd.reSend > MAX_RETRY then snd.(phase := Try(0, true, true), reSend := snd.reSend + 1)
    else snd.(reSend := snd.reSend + 1)
  }

  function Read(bs: nat, snd: Sender, chunk: seq<byte>): Sender {
    var buf := snd.buf + chunk;
    snd.(buf := buf, phase := if |buf| == bs then Try(0, true, false) else Idle)
  }

  // ---------- The receiver and the network ----------

  /** The next block is stored and acknowledged, the last one acknowledged again, others ignored. */
  function Receive(bs: nat, rcv: Receiver, p: Data): (Receiver, seq<Reply>) {
    if !rcv.finished && p.block == Wire(rcv.last + 1) then
      (Receiver(p.block, rcv.file + p.payload, |p.payload| < bs, rcv.count + 1), [Ack(p.block)])
    else if p.block == rcv.last then (rcv, [Ack(p.block)])
    else (rcv, [])
  }

  function Lose<T>(c: seq<T>, i: nat): seq<T>
    requires i < |c|
  {
    c[..i] + c[i + 1..]
  }

  function Copy<T>(c: seq<T>, i: nat): seq<T>
    requires i < |c|
  {
    c[..i + 1] + c[i..]
  }

  function Apply(bs: nat, s: State, e: Event): State
    requires Enabled(bs, s, e)
  {
    match e
    case PollTimeout =>
      if s.snd.phase.Wait? then s.(snd := s.snd.(phase := NextTry(s.snd.phase.tries, true, s.snd.phase.last)))
      else s.(snd := ThreadTimeout(s.snd))
    case RecvReply =>
      var snd := if s.snd.phase.Wait? then ReplyInCall(s.snd, s.acks[0]) else ReplyInThread(s.snd, s.acks[0]);
      s.(snd := snd, acks := s.acks[1..])
    case ReadPipe(chunk) => s.(snd := Read(bs, s.snd, chunk))
    case PipeEnds => s.(snd := s.snd.(pipeOpen := false))
    case Leave => s.(snd := s.snd.(phase := Try(0, true, true)))
    case SendTry =>
      var out := if s.snd.phase.send then [Data(Wire(s.snd.tx), s.snd.buf)] else [];
      s.(snd := s.snd.(phase := Wait(s.snd.phase.tries, s.snd.phase.last)), data := s.data + out)
    case RecvData =>
      var (rcv, out) := Receive(bs, s.rcv, s.data[0]);
      s.(rcv := rcv, data := s.data[1..], acks := s.acks + out)
    case LoseData(i) => s.(data := Lose(s.data, i))
    case CopyData(i) => s.(data := Copy(s.data, i))
    case LoseAck(i) => s.(acks := Lose(s.acks, i))
    case CopyAck(i) => s.(acks := Copy(s.acks, i))
  }

  // ---------- The invariant ----------

  /** What the thread has read from its pipe so far. */
  function ReadSoFar(s: State): seq<byte> {
    s.snd.done + s.snd.buf
  }

  predicate InCall(s: State) {
    s.snd.phase.Try? || s.snd.phase.Wait? || s.snd.phase == Failed(407)
  }

  /** A message of the last confirmed block, or of the block being sent. */
  function OldData(k: nat): Data -> bool {
    (p: Data) => p.block == Wire(k)
  }

  function NewData(k: nat, buf: seq<byte>): Data -> bool {
    (p: Data) => p == Data(Wire(k + 1), buf)
  }

  function OldAck(k: nat): Reply -> bool {
    (r: Reply) => r == Oack || r == Ack(Wire(k))
  }

  function NewAck(k: nat): Reply -> bool {
    (r: Reply) => r == Ack(Wire(k + 1))
  }

  predicate All<T>(c: seq<T>, f: T -> bool) {
    forall i | 0 <= i < |c| :: f(c[i])
  }

  /** Only old and new messages, and nothing old behind something new. */
  predicate Ordered<T>(c: seq<T>, isOld: T -> bool, isNew: T -> bool) {
    (forall i | 0 <= i < |c| :: isOld(c[i]) || isNew(c[i])) &&
    (forall i, j | 0 <= i < j < |c| :: isNew(c[i]) ==> isNew(c[j]))
  }

  predicate ChannelInv<T>(c: seq<T>, isOld: T -> bool, isNew: T -> bool, allOld: bool, allNew: bool) {
    Ordered(c, isOld, isNew) && (allOld ==> All(c, isOld)) && (allNew ==> All(c, isNew))
  }

  /** The receiver already has the block the sender is working on. */
  predicate Ahead(s: State) {
    s.rcv.count == s.snd.confirmed + 1
  }

  predicate DataInv(s: State) {
    var k := s.snd.confirmed;
    ChannelInv(s.data, OldData(k), NewData(k, s.snd.buf), !InCall(s), Ahead(s))
  }

  predicate AckInv(s: State) {
    var k := s.snd.confirmed;
    ChannelInv(s.acks, OldAck(k), NewAck(k), !Ahead(s), false)
  }

  predicate SenderInv(bs: nat, snd: Sender) {
    bs > 0 && snd.tx == (snd.confirmed + 1) % 0x1_0000_0000 && (!snd.phase.Done? ==> snd.rx == Wire(snd.confirmed)) &&
    match snd.phase
    case Idle => |snd.buf| < bs
    case Try(tries, _, last) => tries < MAX_RETRY && |snd.buf| <= bs && (last <==> |snd.buf| < bs)
    case Wait(tries, last) => tries < MAX_RETRY && |snd.buf| <= bs && (last <==> |snd.buf| < bs)
    case Done => snd.buf == []
    case Failed(line) => line == 407 && |snd.buf| <= bs
  }

  predicate ReceiverInv(bs: nat, s: State) {
    s.rcv.last == Wire(s.rcv.count) &&
    if InCall(s) && Ahead(s) then s.rcv.file == ReadSoFar(s) && (s.rcv.finished <==> |s.snd.buf| < bs)
    else s.rcv.count == s.snd.confirmed && s.rcv.file == s.snd.done && (s.rcv.finished <==> s.snd.phase.Done?)
  }

  predicate Inv(bs: nat, s: State) {
    SenderInv(bs, s.snd) && ReceiverInv(bs, s) && DataInv(s) && AckInv(s)
  }

  // ---------- Steps ----------

  /** The counter and its low half go on by one or wrap to zero. */
  lemma WireNext(k: nat)
    ensures Wire(k + 1) == if Wire(k) + 1 < 0x1_0000 then Wire(k) + 1 else 0
  {
    var q, r := k / 0x1_0000, k % 0x1_0000;
    assert k + 1 == 0x1_0000 * q + (r + 1);
    if r + 1 == 0x1_0000 { assert k + 1 == 0x1_0000 * (q + 1); }
  }

  lemma CounterNext(k: nat)
    ensures (k + 1) % 0x1_0000_0000 == if k % 0x1_0000_0000 + 1 < 0x1_0000_0000 then k % 0x1_0000_0000 + 1 else 0
  {
    var q, r := k / 0x1_0000_0000, k % 0x1_0000_0000;
    assert k + 1 == 0x1_0000_0000 * q + (r + 1);
    if r + 1 == 0x1_0000_0000 { assert k + 1 == 0x1_0000_0000 * (q + 1); }
  }

  /** The low half of the counter is what goes on the wire. */
  lemma WireOfCounter(k: nat)
    ensures Wire(k % 0x1_0000_0000) == Wire(k)
  {
    var q, r := k / 0x1_0000_0000, k % 0x1_0000_0000;
    var h, l := r / 0x1_0000, r % 0x1_0000;
    assert k == 0x1_0000 * (0x1_0000 * q + h) + l;
  }

  lemma WireWraps(k: nat)
    ensures Wire(k) != Wire(k + 1) && Wire(k) != Wire(k + 2) && Wire(Wire(k) + 1) == Wire(k + 1)
    ensures Wire((k + 1) % 0x1_0000_0000) == Wire(k + 1)
    ensures ((k + 1) % 0x1_0000_0000 + 1) % 0x1_0000_0000 == (k + 2) % 0x1_0000_0000
  {
    WireNext(k);
    WireNext(k + 1);
    WireOfCounter(k + 1);
    CounterNext(k + 1);
    hide Wire;
    assert Wire(Wire(k) + 1) == Wire(k + 1) by { SmallWire(k); }
  }

  lemma SmallWire(k: nat)
    ensures Wire(Wire(k) + 1) == Wire(k + 1)
  {
    WireNext(k);
  }

  lemma LoseKeeps<T>(c: seq<T>, i: nat, isOld: T -> bool, isNew: T -> bool, allOld: bool, allNew: bool)
    requires i < |c| && ChannelInv(c, isOld, isNew, allOld, allNew)
    ensures ChannelInv(Lose(c, i), isOld, isNew, allOld, allNew)
  {
  }

  lemma CopyKeeps<T>(c: seq<T>, i: nat, isOld: T -> bool, isNew: T -> bool, allOld: bool, allNew: bool)
    requires i < |c| && ChannelInv(c, isOld, isNew, allOld, allNew)
    ensures ChannelInv(Copy(c, i), isOld, isNew, allOld, allNew)
  {
  }

  lemma InitInv(bs: nat, s: State)
    requires bs > 0 && Init(s)
    ensures Inv(bs, s)
  {
    assert forall i | 0 <= i < |s.acks| :: s.acks[i] in s.acks;
  }

  lemma ReceiveKeepsInv(bs: nat, s: State)
    requires Inv(bs, s) && |s.data| > 0
    ensures Inv(bs, Apply(bs, s, RecvData))
  {
    var k, p := s.snd.confirmed, s.data[0];
    assert OldData(k)(p) || NewData(k, s.snd.buf)(p);
    if NewData(k, s.snd.buf)(p) && !Ahead(s) {
      StoreKeepsInv(bs, s);
    } else {
      RepeatKeepsInv(bs, s);
    }
  }

  /** The block of the call under way arrives for the first time. */
  lemma StoreKeepsInv(bs: nat, s: State)
    requires Inv(bs, s) && |s.data| > 0 && NewData(s.snd.confirmed, s.snd.buf)(s.data[0]) && !Ahead(s)
    ensures Inv(bs, Apply(bs, s, RecvData))
  {
    var k := s.snd.confirmed;
    WireWraps(k);
    PopKeeps(s.data, OldData(k), NewData(k, s.snd.buf), !InCall(s), Ahead(s));
    PushNew(s.acks, Ack(Wire(k + 1)), OldAck(k), NewAck(k), !Ahead(s));
    assert !OldData(k)(s.data[0]);
    var t := Apply(bs, s, RecvData);
    hide ChannelInv, Wire, SenderInv;
    assert t.rcv == Receiver(Wire(k + 1), s.rcv.file + s.snd.buf, |s.snd.buf| < bs, k + 1);
    assert t.acks == s.acks + [Ack(Wire(k + 1))] && t.data == s.data[1..];
  }

  /** A block that the receiver already has is acknowledged again and changes nothing else. */
  lemma RepeatKeepsInv(bs: nat, s: State)
    requires Inv(bs, s) && |s.data| > 0 && !(NewData(s.snd.confirmed, s.snd.buf)(s.data[0]) && !Ahead(s))
    ensures Inv(bs, Apply(bs, s, RecvData))
  {
    var k, p := s.snd.confirmed, s.data[0];
    WireWraps(k);
    WireWraps(k + 1);
    PopKeeps(s.data, OldData(k), NewData(k, s.snd.buf), !InCall(s), Ahead(s));
    assert p.block == Wire(s.rcv.count);
    if Ahead(s) {
      PushNew(s.acks, Ack(Wire(k + 1)), OldAck(k), NewAck(k), false);
    } else {
      PushOld(s.acks, Ack(Wire(k)), OldAck(k), NewAck(k));
    }
    var t := Apply(bs, s, RecvData);
    hide ChannelInv, Wire, SenderInv;
    assert t == s.(data := s.data[1..], acks := s.acks + [Ack(p.block)]);
  }

  lemma PushNew<T>(c: seq<T>, x: T, isOld: T -> bool, isNew: T -> bool, allOld: bool)
    requires ChannelInv(c, isOld, isNew, allOld, false) && isNew(x)
    ensures ChannelInv(c + [x], isOld, isNew, false, false)
  {
  }

  lemma PushOld<T>(c: seq<T>, x: T, isOld: T -> bool, isNew: T -> bool)
    requires ChannelInv(c, isOld, isNew, true, false) && isOld(x) && forall y :: !(isOld(y) && isNew(y))
    ensures ChannelInv(c + [x], isOld, isNew, true, false)
  {
  }

  lemma PopKeeps<T>(c: seq<T>, isOld: T -> bool, isNew: T -> bool, allOld: bool, allNew: bool)
    requires |c| > 0 && ChannelInv(c, isOld, isNew, allOld, allNew)
    ensures ChannelInv(c[1..], isOld, isNew, allOld, allNew)
    ensures isNew(c[0]) ==> All(c[1..], isNew)
  {
  }

  /** Between two calls only the last acknowledgement can arrive again, so no assertion fails. */
  lemma ReplyInThreadIsOld(bs: nat, s: State)
    requires Inv(bs, s) && Enabled(bs, s, RecvReply) && s.snd.phase.Idle?
    ensures ReplyInThread(s.snd, s.acks[0]) == s.snd
  {
    assert OldAck(s.snd.confirmed)(s.acks[0]);
  }

  lemma ReplyKeepsInv(bs: nat, s: State)
    requires Inv(bs, s) && Enabled(bs, s, RecvReply)
    ensures Inv(bs, Apply(bs, s, RecvReply))
  {
    var k := s.snd.confirmed;
    WireWraps(k);
    if s.snd.phase.Wait? && s.acks[0] == Ack(Wire(s.snd.tx)) {
      AcceptedReplyKeepsInv(bs, s);
    } else {
      PopKeeps(s.acks, OldAck(k), NewAck(k), !Ahead(s), false);
      if s.snd.phase.Idle? { ReplyInThreadIsOld(bs, s); }
    }
  }

  /** The acknowledgement of the current block: everything still in the channels becomes old. */
  lemma AcceptedReplyKeepsInv(bs: nat, s: State)
    requires Inv(bs, s) && Enabled(bs, s, RecvReply) && s.snd.phase.Wait? && s.acks[0] == Ack(Wire(s.snd.tx))
    ensures Ahead(s) && Inv(bs, Apply(bs, s, RecvReply))
  {
    var k, t := s.snd.confirmed, Apply(bs, s, RecvReply);
    WireWraps(k);
    WireWraps(k + 1);
    assert NewAck(k)(s.acks[0]) && !OldAck(k)(s.acks[0]);
    PopKeeps(s.acks, OldAck(k), NewAck(k), !Ahead(s), false);
    assert All(t.data, OldData(k + 1)) && All(t.acks, OldAck(k + 1));
    AllOldOrdered(t.data, OldData(k + 1), NewData(k + 1, []));
    AllOldOrdered(t.acks, OldAck(k + 1), NewAck(k + 1));
    hide Ordered, All, Wire;
    assert t.snd.tx == (k + 2) % 0x1_0000_0000;
    assert SenderInv(bs, t.snd);
    assert ReceiverInv(bs, t);
  }

  lemma AllOldOrdered<T(!new)>(c: seq<T>, isOld: T -> bool, isNew: T -> bool)
    requires All(c, isOld) && forall x :: !(isOld(x) && isNew(x))
    ensures Ordered(c, isOld, isNew)
  {
  }

  predicate OfNetwork(e: Event) {
    e.LoseData? || e.CopyData? || e.LoseAck? || e.CopyAck?
  }

  lemma StepKeepsInv(bs: nat, s: State, e: Event)
    requires Inv(bs, s) && Enabled(bs, s, e)
    ensures Inv(bs, Apply(bs, s, e))
  {
    hide Inv, Enabled, Apply;
    if e.RecvReply? {
      ReplyKeepsInv(bs, s);
    } else if e.RecvData? {
      AnyData(bs, s);
      ReceiveKeepsInv(bs, s);
    } else if OfNetwork(e) {
      NetworkKeepsInv(bs, s, e);
    } else if e.SendTry? {
      SendKeepsInv(bs, s);
    } else {
      WaitKeepsInv(bs, s, e);
    }
  }

  lemma AnyData(bs: nat, s: State)
    requires Enabled(bs, s, RecvData)
    ensures |s.data| > 0
  {
  }

  /** Loss and duplication. */
  lemma NetworkKeepsInv(bs: nat, s: State, e: Event)
    requires Inv(bs, s) && Enabled(bs, s, e) && OfNetwork(e)
    ensures Inv(bs, Apply(bs, s, e))
  {
    hide ChannelInv, SenderInv, Wire;
    var k := s.snd.confirmed;
    match e
    case LoseData(i) => LoseKeeps(s.data, i, OldData(k), NewData(k, s.snd.buf), !InCall(s), Ahead(s));
    case CopyData(i) => CopyKeeps(s.data, i, OldData(k), NewData(k, s.snd.buf), !InCall(s), Ahead(s));
    case LoseAck(i) => LoseKeeps(s.acks, i, OldAck(k), NewAck(k), !Ahead(s), false);
    case CopyAck(i) => CopyKeeps(s.acks, i, OldAck(k), NewAck(k), !Ahead(s), false);
  }

  /** The block of the call goes out, or an attempt waits without sending. */
  lemma SendKeepsInv(bs: nat, s: State)
    requires Inv(bs, s) && Enabled(bs, s, SendTry)
    ensures Inv(bs, Apply(bs, s, SendTry))
  {
    var k, t := s.snd.confirmed, Apply(bs, s, SendTry);
    WireWraps(k);
    if s.snd.phase.send { SendNew(s.data, Data(Wire(k + 1), s.snd.buf), OldData(k), NewData(k, s.snd.buf), Ahead(s)); }
    hide ChannelInv, Wire;
    assert t.data == s.data || t.data == s.data + [Data(Wire(k + 1), s.snd.buf)];
  }

  lemma SendNew<T>(c: seq<T>, x: T, isOld: T -> bool, isNew: T -> bool, allNew: bool)
    requires ChannelInv(c, isOld, isNew, false, allNew) && isNew(x)
    ensures ChannelInv(c + [x], isOld, isNew, false, allNew)
  {
  }

  /** The sender's other steps send nothing; between calls everything under way is old. */
  lemma WaitKeepsInv(bs: nat, s: State, e: Event)
    requires Inv(bs, s) && Enabled(bs, s, e)
    requires e.PollTimeout? || e.ReadPipe? || e.PipeEnds? || e.Leave?
    ensures Inv(bs, Apply(bs, s, e))
  {
    var k, t := s.snd.confirmed, Apply(bs, s, e);
    assert t == s.(snd := t.snd) && t.snd.confirmed == k;
    WireWraps(k);
    if s.snd.phase.Idle? { AllOldOrdered(s.data, OldData(k), NewData(k, t.snd.buf)); }
    hide Ordered, All, Wire;
  }

  // ---------- Whole runs ----------

  /** `events` can happen one after the other from `s`. */
  predicate Possible(bs: nat, s: State, events: seq<Event>)
    decreases |events|
  {
    |events| == 0 || (Enabled(bs, s, events[0]) && Possible(bs, Apply(bs, s, events[0]), events[1..]))
  }

  function After(bs: nat, s: State, events: seq<Event>): State
    requires Possible(bs, s, events)
    decreases |events|
  {
    if |events| == 0 then s else After(bs, Apply(bs, s, events[0]), events[1..])
  }

  lemma {:induction false} RunKeepsInv(bs: nat, s: State, events: seq<Event>)
    requires Inv(bs, s) && Possible(bs, s, events)
    ensures Inv(bs, After(bs, s, events))
    decreases |events|
  {
    if |events| > 0 {
      StepKeepsInv(bs, s, events[0]);
      RunKeepsInv(bs, Apply(bs, s, events[0]), events[1..]);
    }
  }

  /** What the source wrote into the pipe and the thread read, in the order of the events. */
  function Source(events: seq<Event>): seq<byte> {
    if |events| == 0 then []
    else (if events[0].ReadPipe? then events[0].chunk else []) + Source(events[1..])
  }

  lemma StepReads(bs: nat, s: State, e: Event)
    requires Inv(bs, s) && Enabled(bs, s, e)
    ensures ReadSoFar(Apply(bs, s, e)) == ReadSoFar(s) + if e.ReadPipe? then e.chunk else []
  {
    if e.RecvReply? && s.snd.phase.Idle? { ReplyInThreadIsOld(bs, s); }
  }

  /** Every byte read is confirmed or in the packet buffer, in order. */
  lemma {:induction false} RunReads(bs: nat, s: State, events: seq<Event>)
    requires Inv(bs, s) && Possible(bs, s, events)
    ensures ReadSoFar(After(bs, s, events)) == ReadSoFar(s) + Source(events)
    decreases |events|
  {
    hide Inv, Apply, ReadSoFar;
    if |events| > 0 {
      var e := events[0];
      StepReads(bs, s, e);
      StepKeepsInv(bs, s, e);
      RunReads(bs, Apply(bs, s, e), events[1..]);
      var chunk := if e.ReadPipe? then e.chunk else [];
      assert ReadSoFar(s) + chunk + Source(events[1..]) == ReadSoFar(s) + (chunk + Source(events[1..]));
    }
  }

  /**
   In every run, whatever is lost or duplicated and however often the block number wraps: the file is a
   prefix of the source, it is all that was read when the thread ends, and no assertion but the one
   behind the retries can fail.
   */
  lemma FileIsPrefixOfSource(bs: nat, s: State, events: seq<Event>)
    requires bs > 0 && Init(s) && Possible(bs, s, events)
    ensures var t := After(bs, s, events);
            t.rcv.file <= Source(events) && t.snd.done <= t.rcv.file &&
            (t.snd.phase.Done? ==> t.rcv.finished && t.rcv.file == Source(events)) &&
            (t.snd.phase.Failed? ==> t.snd.phase.line == 407)
  {
    InitInv(bs, s);
    RunKeepsInv(bs, s, events);
    RunReads(bs, s, events);
    assert ReadSoFar(s) + Source(events) == Source(events);
  }

  /** A call for a block returns success only when the receiver has stored that block. */
  lemma SuccessMeansStored(bs: nat, s: State, events: seq<Event>, e: Event)
    requires bs > 0 && Init(s) && Possible(bs, s, events) && Enabled(bs, After(bs, s, events), e)
    requires Apply(bs, After(bs, s, events), e).snd.confirmed > After(bs, s, events).snd.confirmed
    ensures var before, after := After(bs, s, events), Apply(bs, After(bs, s, events), e);
            after.snd.confirmed == before.snd.confirmed + 1 == before.rcv.count &&
            after.snd.done == before.snd.done + before.snd.buf == before.rcv.file
  {
    InitInv(bs, s);
    RunKeepsInv(bs, s, events);
    var before := After(bs, s, events);
    if e.RecvReply? && before.snd.phase.Idle? {
      ReplyInThreadIsOld(bs, before);
    } else {
      AcceptedReplyKeepsInv(bs, before);
    }
  }

  // ---------- The file does arrive ----------

  lemma {:induction false} RunsJoin(bs: nat, s: State, a: seq<Event>, b: seq<Event>)
    requires Possible(bs, s, a) && Possible(bs, After(bs, s, a), b)
    ensures Possible(bs, s, a + b) && After(bs, s, a + b) == After(bs, After(bs, s, a), b)
    decreases |a|
  {
    hide Enabled, Apply;
    if |a| == 0 {
      assert a + b == b;
    } else {
      assert (a + b)[1..] == a[1..] + b;
      RunsJoin(bs, Apply(bs, s, a[0]), a[1..], b);
    }
  }

  lemma {:induction false} SourceJoins(a: seq<Event>, b: seq<Event>)
    ensures Source(a + b) == Source(a) + Source(b)
    decreases |a|
  {
    if |a| == 0 {
      assert a + b == b;
    } else {
      assert (a + b)[1..] == a[1..] + b;
      SourceJoins(a[1..], b);
    }
  }

  lemma OneStep(bs: nat, s: State, e: Event)
    requires Enabled(bs, s, e)
    ensures Possible(bs, s, [e]) && After(bs, s, [e]) == Apply(bs, s, e)
    ensures Source([e]) == if e.ReadPipe? then e.chunk else []
  {
    hide Enabled, Apply;
    assert [e][1..] == [];
    assert Possible(bs, Apply(bs, s, e), []);
  }

  predicate IsLoss(e: Event) {
    e.LoseData? || e.LoseAck?
  }

  predicate NoLoss(events: seq<Event>) {
    forall e | e in events :: !IsLoss(e)
  }

  predicate ChannelsEmpty(s: State) {
    s.data == [] && s.acks == []
  }

  /** The block of the call is confirmed and stored, and nothing is under way. */
  predicate Completed(s: State, t: State) {
    t.snd.confirmed == s.snd.confirmed + 1 && t.snd.done == ReadSoFar(s) && t.snd.buf == [] &&
    t.snd.pipeOpen == s.snd.pipeOpen && t.rcv.file == ReadSoFar(s) && ChannelsEmpty(t)
  }

  /** A run and where it leads. */
  predicate Leads(bs: nat, s: State, events: seq<Event>, t: State) {
    Possible(bs, s, events) && After(bs, s, events) == t
  }

  lemma Extend(bs: nat, s: State, events: seq<Event>, t: State, e: Event)
    requires Inv(bs, s) && Leads(bs, s, events, t) && Enabled(bs, t, e) && Inv(bs, t)
    ensures Leads(bs, s, events + [e], Apply(bs, t, e)) && Inv(bs, Apply(bs, t, e))
    ensures Source(events + [e]) == Source(events) + if e.ReadPipe? then e.chunk else []
    ensures NoLoss(events) && !IsLoss(e) ==> NoLoss(events + [e])
  {
    hide Inv, Enabled, Apply;
    StepKeepsInv(bs, t, e);
    OneStep(bs, t, e);
    RunsJoin(bs, s, events, [e]);
    SourceJoins(events, [e]);
  }

  /** An attempt that sends, over empty channels that lose nothing, completes the call. */
  lemma AttemptCompletes(bs: nat, s: State) returns (events: seq<Event>, t: State)
    requires Inv(bs, s) && ChannelsEmpty(s) && s.snd.phase.Try? && s.snd.phase.send
    ensures Leads(bs, s, events, t) && Inv(bs, t) && NoLoss(events) && Source(events) == []
    ensures Completed(s, t) && t.snd.phase == (if s.snd.phase.last then Done else Idle)
    ensures s.snd.phase.last ==> t.rcv.finished
  {
    hide Inv, Leads, NoLoss, Apply, Enabled, OnItsWay, Answered;
    SentBlock(bs, s);
    var s1 := Apply(bs, s, SendTry);
    StepKeepsInv(bs, s, SendTry);
    ReceivedBlock(bs, s1);
    var s2 := Apply(bs, s1, RecvData);
    StepKeepsInv(bs, s1, RecvData);
    ConfirmedBlock(bs, s2);
    t := Apply(bs, s2, RecvReply);
    NoEvents(bs, s);
    Extend(bs, s, [], s, SendTry);
    Extend(bs, s, [] + [SendTry], s1, RecvData);
    Extend(bs, s, [] + [SendTry] + [RecvData], s2, RecvReply);
    events := [] + [SendTry] + [RecvData] + [RecvReply];
  }

  lemma NoEvents(bs: nat, s: State)
    ensures Leads(bs, s, [], s) && Source([]) == [] && NoLoss([])
  {
  }

  /** Now the block is on its way, alone. */
  predicate OnItsWay(s: State) {
    s.data == [Data(Wire(s.snd.confirmed + 1), s.snd.buf)] && s.acks == [] && s.snd.phase.Wait?
  }

  predicate Answered(s: State) {
    s.data == [] && s.acks == [Ack(Wire(s.snd.confirmed + 1))] && s.snd.phase.Wait? && Ahead(s)
  }

  lemma SentBlock(bs: nat, s: State)
    requires Inv(bs, s) && ChannelsEmpty(s) && s.snd.phase.Try? && s.snd.phase.send
    ensures Enabled(bs, s, SendTry)
    ensures var t := Apply(bs, s, SendTry);
            OnItsWay(t) && t == s.(snd := s.snd.(phase := t.snd.phase), data := t.data) &&
            t.snd.phase.last == s.snd.phase.last && Enabled(bs, t, RecvData)
  {
    WireWraps(s.snd.confirmed);
  }

  lemma ReceivedBlock(bs: nat, s: State)
    requires Inv(bs, s) && OnItsWay(s)
    ensures Enabled(bs, s, RecvData)
    ensures var t := Apply(bs, s, RecvData); Answered(t) && t.snd == s.snd && Enabled(bs, t, RecvReply)
  {
    WireWraps(s.snd.confirmed);
    WireWraps(s.snd.confirmed + 1);
  }

  lemma ConfirmedBlock(bs: nat, s: State)
    requires Inv(bs, s) && Answered(s)
    ensures Enabled(bs, s, RecvReply)
    ensures var t := Apply(bs, s, RecvReply);
            Completed(s, t) && t.snd.phase == (if s.snd.phase.last then Done else Idle) &&
            (s.snd.phase.last ==> t.rcv.finished)
  {
    WireWraps(s.snd.confirmed);
  }

  /** From between two calls, any further bytes of the source get through. */
  lemma {:induction false} RestArrives(bs: nat, s: State, more: seq<byte>) returns (events: seq<Event>, t: State)
    requires Inv(bs, s) && ChannelsEmpty(s) && s.snd.phase.Idle? && (s.snd.pipeOpen || more == [])
    ensures Leads(bs, s, events, t) && NoLoss(events) && Source(events) == more
    ensures t.snd.phase.Done? && t.rcv.finished && t.rcv.file == ReadSoFar(s) + more
    decreases |more|
  {
    var room := Room(bs, s);
    if |more| >= room {
      hide *;
      var chunk, later := more[..room], more[room..];
      var e1, s1 := OneBlockArrives(bs, s, chunk);
      var e2;
      e2, t := RestArrives(bs, s1, later);
      JoinLeads(bs, s, e1, s1, e2, t);
      events := e1 + e2;
      assert chunk + later == more;
      assert ReadSoFar(s) + chunk + later == ReadSoFar(s) + more;
    } else {
      events, t := ShortBlockArrives(bs, s, more);
    }
  }

  /** The bytes the packet buffer still takes. */
  function Room(bs: nat, s: State): (n: nat)
    requires Inv(bs, s) && s.snd.phase.Idle?
    ensures n > 0 && n == bs - |s.snd.buf|
  {
    bs - |s.snd.buf|
  }

  /** Input that fills the packet buffer. */
  lemma OneBlockArrives(bs: nat, s: State, chunk: seq<byte>) returns (events: seq<Event>, t: State)
    requires Inv(bs, s) && ChannelsEmpty(s) && s.snd.phase.Idle? && s.snd.pipeOpen && |chunk| == Room(bs, s)
    ensures Leads(bs, s, events, t) && NoLoss(events) && Source(events) == chunk
    ensures Inv(bs, t) && ChannelsEmpty(t) && t.snd.phase.Idle? && t.snd.pipeOpen
    ensures ReadSoFar(t) == ReadSoFar(s) + chunk
  {
    FillingRead(bs, s, chunk);
    NoEvents(bs, s);
    hide *;
    var s1 := Apply(bs, s, ReadPipe(chunk));
    Extend(bs, s, [], s, ReadPipe(chunk));
    var e2;
    e2, t := AttemptCompletes(bs, s1);
    CompletedRead(s1, t);
    JoinLeads(bs, s, [] + [ReadPipe(chunk)], s1, e2, t);
    events := [] + [ReadPipe(chunk)] + e2;
    assert chunk + [] == chunk;
  }

  lemma FillingRead(bs: nat, s: State, chunk: seq<byte>)
    requires Inv(bs, s) && ChannelsEmpty(s) && s.snd.phase.Idle? && s.snd.pipeOpen && |chunk| == Room(bs, s)
    ensures Enabled(bs, s, ReadPipe(chunk)) && !IsLoss(ReadPipe(chunk))
    ensures var t := Apply(bs, s, ReadPipe(chunk));
            t.snd.phase == Try(0, true, false) && ChannelsEmpty(t) && t.snd.pipeOpen && ReadSoFar(t) == ReadSoFar(s) + chunk
  {
    assert s.snd.done + (s.snd.buf + chunk) == s.snd.done + s.snd.buf + chunk;
  }

  lemma CompletedRead(s: State, t: State)
    requires Completed(s, t)
    ensures ReadSoFar(t) == ReadSoFar(s) && ChannelsEmpty(t) && t.snd.pipeOpen == s.snd.pipeOpen
  {
    assert t.snd.done + [] == t.snd.done;
  }

  lemma ShortBlockArrives(bs: nat, s: State, more: seq<byte>) returns (events: seq<Event>, t: State)
    requires Inv(bs, s) && ChannelsEmpty(s) && s.snd.phase.Idle? && |more| < Room(bs, s)
    requires s.snd.pipeOpen || more == []
    ensures Leads(bs, s, events, t) && NoLoss(events) && Source(events) == more
    ensures t.snd.phase.Done? && t.rcv.finished && t.rcv.file == ReadSoFar(s) + more
  {
    NoEvents(bs, s);
    var s1, e1 := s, [];
    if |more| > 0 {
      Extend(bs, s, [], s, ReadPipe(more));
      s1, e1 := Apply(bs, s, ReadPipe(more)), [] + [ReadPipe(more)];
    }
    assert ReadSoFar(s1) == ReadSoFar(s) + more;
    assert Leads(bs, s, e1, s1) && Inv(bs, s1) && s1.snd.phase.Idle? && ChannelsEmpty(s1);
    hide *;
    var e2;
    e2, t := LastBlockArrives(bs, s1);
    JoinLeads(bs, s, e1, s1, e2, t);
    events := e1 + e2;
  }

  lemma JoinLeads(bs: nat, s: State, a: seq<Event>, mid: State, b: seq<Event>, t: State)
    requires Leads(bs, s, a, mid) && Leads(bs, mid, b, t)
    ensures Leads(bs, s, a + b, t) && Source(a + b) == Source(a) + Source(b)
    ensures NoLoss(a) && NoLoss(b) ==> NoLoss(a + b)
  {
    hide Enabled, Apply;
    RunsJoin(bs, s, a, b);
    SourceJoins(a, b);
  }

  /** The source has ended: the last block, perhaps empty, gets through. */
  lemma LastBlockArrives(bs: nat, s: State) returns (events: seq<Event>, t: State)
    requires Inv(bs, s) && ChannelsEmpty(s) && s.snd.phase.Idle?
    ensures Leads(bs, s, events, t) && NoLoss(events) && Source(events) == []
    ensures t.snd.phase.Done? && t.rcv.finished && t.rcv.file == ReadSoFar(s)
  {
    NoEvents(bs, s);
    var s1, e1 := s, [];
    if s.snd.pipeOpen {
      Extend(bs, s, [], s, PipeEnds);
      s1, e1 := Apply(bs, s, PipeEnds), [] + [PipeEnds];
    }
    var s2 := Apply(bs, s1, Leave);
    Extend(bs, s, e1, s1, Leave);
    var e3;
    e3, t := AttemptCompletes(bs, s2);
    JoinLeads(bs, s, e1 + [Leave], s2, e3, t);
    events := e1 + [Leave] + e3;
  }

  /** For every source and block size there is a run without loss that stores the whole file. */
  lemma EveryFileArrives(bs: nat, s: State, src: seq<byte>) returns (events: seq<Event>)
    requires bs > 0 && Init(s)
    ensures Possible(bs, s, events) && NoLoss(events) && Source(events) == src
    ensures var t := After(bs, s, events); t.snd.phase.Done? && t.rcv.finished && t.rcv.file == src
  {
    InitInv(bs, s);
    var e1, s1 := OacksPass(bs, s);
    var e2, t := RestArrives(bs, s1, src);
    JoinLeads(bs, s, e1, s1, e2, t);
    events := e1 + e2;
    assert [] + [] + src == src;
  }

  /** The answers to the write request that are still under way do nothing. */
  lemma {:induction false} OacksPass(bs: nat, s: State) returns (events: seq<Event>, t: State)
    requires Inv(bs, s) && Init(s)
    ensures Leads(bs, s, events, t) && NoLoss(events) && Source(events) == []
    ensures t == s.(acks := []) && Inv(bs, t)
    decreases |s.acks|
  {
    NoEvents(bs, s);
    if |s.acks| == 0 {
      events, t := [], s;
    } else {
      OackPasses(bs, s);
      hide *;
      var s1 := Apply(bs, s, RecvReply);
      Extend(bs, s, [], s, RecvReply);
      var e2;
      e2, t := OacksPass(bs, s1);
      JoinLeads(bs, s, [] + [RecvReply], s1, e2, t);
      events := [] + [RecvReply] + e2;
    }
  }

  lemma OackPasses(bs: nat, s: State)
    requires Init(s) && |s.acks| > 0
    ensures Enabled(bs, s, RecvReply) && !IsLoss(RecvReply)
    ensures var t := Apply(bs, s, RecvReply); t == s.(acks := s.acks[1..]) && Init(t)
  {
    assert s.acks[0] in s.acks && forall a | a in s.acks[1..] :: a in s.acks;
  }

  // ---------- After losses ----------

  /** The call has an attempt left, or there is no call. */
  predicate CanGoOn(s: State) {
    match s.snd.phase
    case Idle => true
    case Try(tries, send, _) => send || tries + 1 < MAX_RETRY
    case Wait(tries, _) => tries + 1 < MAX_RETRY
    case _ => false
  }

  /** The call under way is the last one. */
  predicate LastCall(s: State) {
    (s.snd.phase.Try? || s.snd.phase.Wait?) && s.snd.phase.last
  }

  /** Everything under way may be lost. */
  lemma {:induction false} AllLost(bs: nat, s: State) returns (events: seq<Event>, t: State)
    requires Inv(bs, s)
    ensures Leads(bs, s, events, t) && Inv(bs, t) && Source(events) == []
    ensures t == s.(data := [], acks := [])
    decreases |s.data| + |s.acks|
  {
    NoEvents(bs, s);
    if |s.data| + |s.acks| == 0 {
      events, t := [], s;
    } else {
      var e := if |s.data| > 0 then LoseData(0) else LoseAck(0);
      var s1 := Apply(bs, s, e);
      assert s1 == s.(data := s1.data, acks := s1.acks) && |s1.data| + |s1.acks| < |s.data| + |s.acks|;
      Extend(bs, s, [], s, e);
      var e2;
      e2, t := AllLost(bs, s1);
      JoinLeads(bs, s, [] + [e], s1, e2, t);
      events := [] + [e] + e2;
    }
  }

  /** Up to the next attempt that sends: a time-out, if need be after an attempt that sent nothing. */
  lemma NextAttempt(bs: nat, s: State) returns (events: seq<Event>, t: State)
    requires Inv(bs, s) && ChannelsEmpty(s) && CanGoOn(s) && !s.snd.phase.Idle?
    ensures Leads(bs, s, events, t) && Inv(bs, t) && Source(events) == [] && NoLoss(events)
    ensures t.snd.phase.Try? && t.snd.phase.send && t.snd.phase.last == s.snd.phase.last
    ensures t == s.(snd := s.snd.(phase := t.snd.phase))
  {
    NoEvents(bs, s);
    events, t := [], s;
    if t.snd.phase.Try? && !t.snd.phase.send {
      Extend(bs, s, events, t, SendTry);
      assert Apply(bs, t, SendTry).data == [];
      events, t := events + [SendTry], Apply(bs, t, SendTry);
    }
    if t.snd.phase.Wait? {
      Extend(bs, s, events, t, PollTimeout);
      events, t := events + [PollTimeout], Apply(bs, t, PollTimeout);
    }
  }

  /** The packet or its acknowledgement was lost: a time-out and one more attempt complete the block. */
  lemma LostBlockIsRepeated(bs: nat, s: State) returns (events: seq<Event>, t: State)
    requires Inv(bs, s) && ChannelsEmpty(s) && s.snd.phase.Wait? && s.snd.phase.tries + 1 < MAX_RETRY
    ensures Leads(bs, s, events, t) && NoLoss(events) && Source(events) == []
    ensures Completed(s, t) && t.snd.phase == (if s.snd.phase.last then Done else Idle)
  {
    var e1, s1 := NextAttempt(bs, s);
    var e2;
    e2, t := AttemptCompletes(bs, s1);
    JoinLeads(bs, s, e1, s1, e2, t);
    events := e1 + e2;
  }

  /**
   From every reachable state that has an attempt left, even if everything under way is lost, the transfer
   can still be completed, with whatever else the source has to say.
   */
  lemma CanAlwaysFinish(bs: nat, s: State, more: seq<byte>) returns (events: seq<Event>, t: State)
    requires Inv(bs, s) && CanGoOn(s) && ((s.snd.pipeOpen && !LastCall(s)) || more == [])
    ensures Leads(bs, s, events, t) && Source(events) == more
    ensures t.snd.phase.Done? && t.rcv.finished && t.rcv.file == ReadSoFar(s) + more
  {
    hide Inv, Leads, NoLoss, Source;
    var e1, s1 := AllLost(bs, s);
    if s.snd.phase.Idle? {
      var e2;
      e2, t := RestArrives(bs, s1, more);
      JoinLeads(bs, s, e1, s1, e2, t);
      events := e1 + e2;
    } else {
      var e2, s2 := NextAttempt(bs, s1);
      var e3, s3 := AttemptCompletes(bs, s2);
      JoinLeads(bs, s, e1, s1, e2, s2);
      JoinLeads(bs, s, e1 + e2, s2, e3, s3);
      if s.snd.phase.last {
        events, t := e1 + e2 + e3, s3;
        assert ReadSoFar(s) + more == ReadSoFar(s);
      } else {
        var e4;
        e4, t := RestArrives(bs, s3, more);
        JoinLeads(bs, s, e1 + e2 + e3, s3, e4, t);
        events := e1 + e2 + e3 + e4;
        assert ReadSoFar(s) + [] + more == ReadSoFar(s) + more;
      }
    }
  }

  // ---------- Attempts ----------

  /** Attempts that are not answered. */
  function Unanswered(n: nat): seq<Event> {
    if n == 0 then [] else [SendTry, PollTimeout] + Unanswered(n - 1)
  }

  /** A call gives up after the twelfth attempt without an answer, and not before. */
  lemma {:induction false} TwelveAttempts(bs: nat, s: State, n: nat)
    requires s.snd.phase.Try? && s.snd.phase.send && s.snd.phase.tries + n <= 12 && s.snd.phase.tries < 12
    ensures Possible(bs, s, Unanswered(n))
    ensures var tries := s.snd.phase.tries + n;
            After(bs, s, Unanswered(n)).snd.phase ==
            if tries < 12 then Try(tries, true, s.snd.phase.last) else Failed(407)
    decreases n
  {
    if n > 0 {
      var s1 := Apply(bs, s, SendTry);
      var s2 := Apply(bs, s1, PollTimeout);
      var events := Unanswered(n);
      assert events[0] == SendTry && events[1..][0] == PollTimeout && events[1..][1..] == Unanswered(n - 1);
      if s.snd.phase.tries + 1 < 12 {
        TwelveAttempts(bs, s2, n - 1);
      } else {
        assert n == 1 && Unanswered(0) == [] && After(bs, s2, []) == s2;
        assert After(bs, s, events) == After(bs, s1, events[1..]) == s2;
      }
    }
  }

  /** The thread closes the file after the fourteenth time-out between calls, and not before. */
  lemma {:induction false} FourteenTimeouts(bs: nat, s: State, n: nat)
    requires s.snd.phase.Idle? && s.snd.pipeOpen && s.snd.reSend + n <= 14 && s.snd.reSend <= 13
    ensures Possible(bs, s, seq(n, _ => PollTimeout))
    ensures After(bs, s, seq(n, _ => PollTimeout)).snd.phase ==
            if s.snd.reSend + n <= 13 then Idle else Try(0, true, true)
    decreases n
  {
    if n > 0 {
      var events := seq(n, _ => PollTimeout);
      assert events[1..] == seq(n - 1, _ => PollTimeout);
      if s.snd.reSend <= 12 {
        FourteenTimeouts(bs, Apply(bs, s, PollTimeout), n - 1);
      } else {
        assert events[1..] == [];
      }
    }
  }

  // ---------- What makes the sender send ----------

  /** Packets put on the wire in one step. */
  function Emitted(bs: nat, s: State, e: Event): int
    requires Enabled(bs, s, e)
  {
    if e.SendTry? then |Apply(bs, s, e).data| - |s.data| else 0
  }

  /** Events that may cause a packet: input, the end of the input, a time-out, an OACK. No ACK is among them. */
  predicate Causes(bs: nat, s: State, e: Event)
    requires Enabled(bs, s, e)
  {
    e.ReadPipe? || e.Leave? || e.PollTimeout? || (e.RecvReply? && s.acks[0].Oack?)
  }

  function EmittedIn(bs: nat, s: State, events: seq<Event>): int
    requires Possible(bs, s, events)
    decreases |events|
  {
    if |events| == 0 then 0 else Emitted(bs, s, events[0]) + EmittedIn(bs, Apply(bs, s, events[0]), events[1..])
  }

  function CausesIn(bs: nat, s: State, events: seq<Event>): nat
    requires Possible(bs, s, events)
    decreases |events|
  {
    if |events| == 0 then 0
    else (if Causes(bs, s, events[0]) then 1 else 0) + CausesIn(bs, Apply(bs, s, events[0]), events[1..])
  }

  function Due(s: State): nat {
    if s.snd.phase.Try? && s.snd.phase.send then 1 else 0
  }

  lemma StepEmits(bs: nat, s: State, e: Event)
    requires Enabled(bs, s, e)
    ensures Emitted(bs, s, e) + Due(Apply(bs, s, e)) <= Due(s) + if Causes(bs, s, e) then 1 else 0
  {
  }

  /** No acknowledgement, however often it is repeated, makes the sender send: there is one cause per packet. */
  lemma {:induction false} AcksCauseNothing(bs: nat, s: State, events: seq<Event>)
    requires Possible(bs, s, events)
    ensures EmittedIn(bs, s, events) + Due(After(bs, s, events)) <= Due(s) + CausesIn(bs, s, events)
    decreases |events|
  {
    hide Enabled, Apply, Emitted, Causes, Due;
    if |events| > 0 {
      StepEmits(bs, s, events[0]);
      AcksCauseNothing(bs, Apply(bs, s, events[0]), events[1..]);
    }
  }
}
