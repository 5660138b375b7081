/**
 The FTP child and its privileged parent over their socket pair: the exchanges of privsock.c, the
 handlers of privparent.c and `do_port`, `do_pasv` and `get_transfer_fd` of ftpproto.c, as two
 processes that run in any interleaving.
 */
module PrivSock {

  /** `readn` takes as many bytes as the reader expects, so a message read as another kind is an error. */
  datatype Msg = Cmd(c: nat) | Int(n: int) | Buf(text: string) | Res(ok: bool) | Fd(link: Link)

  /** What a data descriptor is connected to: a client's port, or whoever came to the listening port. */
  datatype Link = NoLink | To(port: int, ip: string) | From(port: int)

  const GET_DATA_SOCK := 1
  const PASV_ACTIVE := 2
  const PASV_LISTEN := 3
  const PASV_ACCEPT := 4

  /**
   Where the child is. `Ask` and `AskWait` are the two halves of `pasv_active`, at its three places in
   `get_transfer_fd`: the test for either mode, the test for PORT and the test for PASV.
   */
  datatype Child =
    | Ready
    | ListenSend | ListenWait
    | Ask(place: nat) | AskWait(place: nat)
    | PortCmd | PortInt | PortLen | PortBuf | PortRes | PortFd
    | AcceptCmd | AcceptRes | AcceptFd
    | Finish
    | ChildConfused

  datatype Parent =
    | Idle
    | GetPort | GetLen(port: int) | GetBuf(port: int, len: int) | Connect(port: int, ip: string)
    | SendFd(link: Link)
    | Active | Listen | Accept
    | ParentConfused

  /**
   `portPending` is `port_addr`, with its two fields; `announced` is the port of the last reply to PASV;
   `result` is what `get_transfer_fd` returns and `dataFd` the session's `data_fd`. `listening` is
   `pasv_listen_fd`, with its port.
   */
  datatype State = State(
    child: Child, portPending: bool, port: int, ip: string, announced: int, result: bool, dataFd: Link,
    parent: Parent, listening: bool, listenPort: int,
    toParent: seq<Msg>, toChild: seq<Msg>)

  const START := State(Ready, false, 0, "", 0, false, NoLink, Idle, false, 0, [], [])

  /** `ok` and `n` are what the network does: a connection or listening port, or a failure. */
  datatype Event =
    | DoPort(port: int, ip: string)
    | DoPasv
    | GetTransferFd
    | ChildMoves
    | ParentMoves(ok: bool, n: int)

  // ---------- The child ----------

  predicate ChildWaits(c: Child) {
    c.ListenWait? || c.AskWait? || c.PortRes? || c.PortFd? || c.AcceptRes? || c.AcceptFd?
  }

  /** After `pasv_active` answered at its place in `get_transfer_fd`. */
  function Answered(s: State, place: nat, active: bool): Child {
    if s.portPending && active then Ask(place) // port_active and pasv_active call each other again
    else if place == 1 then (if s.portPending then Ask(2) else if active then Ask(3) else Ready)
    else if place == 2 then PortCmd
    else if active then AcceptCmd else Finish
  }

  function ChildReads(s: State, m: Msg): Child {
    match (s.child, m)
    case (ListenWait, Int(_)) => Ready
    case (AskWait(place), Int(n)) => Answered(s, place, n != 0)
    case (PortRes, Res(ok)) => if ok then PortFd else Ask(3)
    case (PortFd, Fd(_)) => Ask(3)
    case (AcceptRes, Res(ok)) => if ok then AcceptFd else Finish
    case (AcceptFd, Fd(_)) => Finish
    case _ => ChildConfused
  }

  /** What the child keeps of a message: a listening port, or a descriptor and with it success. */
  function Kept(s: State, m: Msg): State {
    match (s.child, m)
    case (ListenWait, Int(n)) => s.(announced := n)
    case (PortFd, Fd(link)) => s.(dataFd := link, result := true)
    case (AcceptFd, Fd(link)) => s.(dataFd := link, result := true)
    case _ => s
  }

  /** The child's next state and what it sends when it is not waiting. */
  function ChildSends(s: State): (Child, seq<Msg>) {
    match s.child
    case ListenSend => (ListenWait, [Cmd(PASV_LISTEN)])
    case Ask(place) => (AskWait(place), [Cmd(PASV_ACTIVE)])
    case PortCmd => (PortInt, [Cmd(GET_DATA_SOCK)])
    case PortInt => (PortLen, [Int(s.port)])
    case PortLen => (PortBuf, [Int(|s.ip|)])
    case PortBuf => (PortRes, [Buf(s.ip)])
    case AcceptCmd => (AcceptRes, [Cmd(PASV_ACCEPT)])
    case Finish => (Ready, [])
    case c => (c, [])
  }

  // ---------- The parent ----------

  predicate ParentWaits(p: Parent) {
    p.Idle? || p.GetPort? || p.GetLen? || p.GetBuf?
  }

  function ParentReads(p: Parent, m: Msg): Parent {
    match (p, m)
    case (Idle, Cmd(c)) =>
      if c == GET_DATA_SOCK then GetPort else if c == PASV_ACTIVE then Active
      else if c == PASV_LISTEN then Listen else if c == PASV_ACCEPT then Accept else Idle
    case (GetPort, Int(n)) => GetLen(n % 0x1_0000)
    case (GetLen(port), Int(n)) => if !(0 <= n <= 16) then ParentConfused else GetBuf(port, n)
    case (GetBuf(port, len), Buf(text)) => if |text| == len then Connect(port, text) else ParentConfused
    case _ => ParentConfused
  }

  // ---------- Steps ----------

  predicate Enabled(s: State, e: Event) {
    match e
    case DoPort(port, ip) => s.child.Ready? && 0 <= port < 0x1_0000 && 7 <= |ip| <= 15
    case DoPasv => s.child.Ready?
    case GetTransferFd => s.child.Ready?
    case ChildMoves => !s.child.Ready? && !s.child.ChildConfused? && (ChildWaits(s.child) ==> s.toChild != [])
    case ParentMoves(_, _) => !s.parent.ParentConfused? && (ParentWaits(s.parent) ==> s.toParent != [])
  }

  function MoveChild(s: State): State
    requires Enabled(s, ChildMoves)
  {
    if ChildWaits(s.child) then
      Kept(s, s.toChild[0]).(child := ChildReads(s, s.toChild[0]), toChild := s.toChild[1..])
    else
      var (next, out) := ChildSends(s);
      s.(child := next, toParent := s.toParent + out, portPending := s.portPending && !s.child.Finish?)
  }

  function MoveParent(s: State, ok: bool, n: int): State
    requires Enabled(s, ParentMoves(ok, n))
  {
    match s.parent
    case Active => s.(parent := Idle, toChild := s.toChild + [Int(if s.listening then 1 else 0)])
    case Listen =>
      var port := n % 0x1_0000;
      s.(parent := Idle, listening := true, listenPort := port, toChild := s.toChild + [Int(port)])
    case Accept =>
      s.(parent := if ok then SendFd(From(s.listenPort)) else Idle, listening := false, toChild := s.toChild + [Res(ok)])
    case Connect(port, ip) =>
      s.(parent := if ok then SendFd(To(port, ip)) else Idle, toChild := s.toChild + [Res(ok)])
    case SendFd(link) => s.(parent := Idle, toChild := s.toChild + [Fd(link)])
    case p => s.(parent := ParentReads(p, s.toParent[0]), toParent := s.toParent[1..])
  }

  function Apply(s: State, e: Event): State
    requires Enabled(s, e)
  {
    match e
    case DoPort(port, ip) => s.(portPending := true, port := port, ip := ip)
    case DoPasv => s.(child := ListenSend)
    case GetTransferFd => s.(child := Ask(1), result := false)
    case ChildMoves => MoveChild(s)
    case ParentMoves(ok, n) => MoveParent(s, ok, n)
  }

  // ---------- Lock step ----------

  predicate Quiet(s: State) {
    s.parent == Idle && s.toParent == [] && s.toChild == []
  }

  /** A command with one number in reply: on its way, in the handler, or answered. */
  predicate Exchange(s: State, c: nat, handler: Parent) {
    (s.parent == Idle && s.toParent == [Cmd(c)] && s.toChild == []) ||
    (s.parent == handler && s.toParent == [] && s.toChild == []) ||
    (s.parent == Idle && s.toParent == [] && |s.toChild| == 1 && s.toChild[0].Int?)
  }

  /** The connection that the pending command asked for. */
  function Wanted(s: State): Link {
    if s.portPending then To(s.port, s.ip) else From(s.listenPort)
  }

  /** The result, and after a good one the descriptor, sent or still to be sent. */
  predicate Answering(s: State) {
    s.toParent == [] &&
    ((s.parent == SendFd(Wanted(s)) && s.toChild == [Res(true)]) ||
     (s.parent == Idle && (s.toChild == [Res(true), Fd(Wanted(s))] || s.toChild == [Res(false)])))
  }

  predicate Descriptor(s: State) {
    s.toParent == [] &&
    ((s.parent == SendFd(Wanted(s)) && s.toChild == []) || (s.parent == Idle && s.toChild == [Fd(Wanted(s))]))
  }

  /** The request for an active connection, message by message. */
  function Script(s: State): seq<Msg> {
    [Cmd(GET_DATA_SOCK), Int(s.port), Int(|s.ip|), Buf(s.ip)]
  }

  /** The parent has read `n` messages of the script, and knows their contents. */
  predicate HasRead(s: State, n: nat) {
    match n
    case 0 => s.parent == Idle
    case 1 => s.parent == GetPort
    case 2 => s.parent == GetLen(s.port)
    case 3 => s.parent == GetBuf(s.port, |s.ip|)
    case _ => n == 4 && s.parent == Connect(s.port, s.ip)
  }

  predicate Requesting(s: State, sent: nat)
    requires sent <= 4
  {
    s.toChild == [] && exists n | 0 <= n <= sent :: HasRead(s, n) && s.toParent == Script(s)[n..sent]
  }

  predicate Inv(s: State) {
    0 <= s.port < 0x1_0000 && |s.ip| <= 15 && Announced(s) && ResultOk(s) &&
    match s.child
    case Ready => Quiet(s)
    case ListenSend => Quiet(s)
    case ListenWait =>
      Exchange(s, PASV_LISTEN, Listen) && (s.toChild != [] ==> s.listening && s.toChild[0] == Int(s.listenPort))
    case Ask(place) => Quiet(s) && AskOk(s, place)
    case AskWait(place) =>
      AskOk(s, place) && Exchange(s, PASV_ACTIVE, Active) &&
      (s.toChild != [] ==> s.toChild[0] == Int(if s.listening then 1 else 0))
    case PortCmd => Quiet(s) && PortOnly(s)
    case PortInt => PortOnly(s) && Requesting(s, 1)
    case PortLen => PortOnly(s) && Requesting(s, 2)
    case PortBuf => PortOnly(s) && Requesting(s, 3)
    case PortRes => PortOnly(s) && (Requesting(s, 4) || Answering(s))
    case PortFd => PortOnly(s) && Descriptor(s)
    case AcceptCmd => Quiet(s) && !s.portPending && s.listening
    case AcceptRes =>
      !s.portPending &&
      ((s.parent == Idle && s.toParent == [Cmd(PASV_ACCEPT)] && s.toChild == []) ||
       (s.parent == Accept && s.toParent == [] && s.toChild == []) ||
       (Answering(s) && !s.listening))
    case AcceptFd => !s.portPending && Descriptor(s) && !s.listening
    case Finish => Quiet(s) && !s.listening
    case ChildConfused => false
  }

  /** The client has been told the port that is listening, unless the reply is under way. */
  predicate Announced(s: State) {
    s.listening && !s.child.ListenWait? ==> s.announced == s.listenPort
  }

  /** Success is claimed only behind the exchange, and for the connection that was asked for. */
  predicate ResultOk(s: State) {
    match s.child
    case Ask(place) => s.result ==> place == 3 && s.portPending && s.dataFd == Wanted(s)
    case AskWait(place) => s.result ==> place == 3 && s.portPending && s.dataFd == Wanted(s)
    case Finish => s.result ==> s.dataFd == Wanted(s)
    case Ready => true
    case ListenSend => true
    case ListenWait => true
    case _ => !s.result
  }

  predicate PortOnly(s: State) {
    s.portPending && !s.listening
  }

  predicate AskOk(s: State, place: nat) {
    1 <= place <= 3 && (place == 2 ==> PortOnly(s)) && (place == 3 ==> s.portPending != s.listening)
  }

  lemma ChildKeepsInv(s: State)
    requires Inv(s) && Enabled(s, ChildMoves)
    ensures Inv(MoveChild(s))
  {
    if ChildWaits(s.child) {
      hide *;
      ReadingKeepsInv(s);
    } else {
      hide *;
      SendingKeepsInv(s);
    }
  }

  lemma SendingKeepsInv(s: State)
    requires Inv(s) && Enabled(s, ChildMoves) && !ChildWaits(s.child)
    ensures Inv(MoveChild(s))
  {
    hide HasRead, Script, Requesting;
    var t := MoveChild(s);
    ScriptIs(s);
    match s.child
    case PortCmd => SendFirst(s, t);
    case PortInt => SendNext(s, t, 1);
    case PortLen => SendNext(s, t, 2);
    case PortBuf => SendNext(s, t, 3);
    case _ =>
  }

  lemma ReadingKeepsInv(s: State)
    requires Inv(s) && Enabled(s, ChildMoves) && ChildWaits(s.child)
    ensures Inv(MoveChild(s))
  {
    hide HasRead, Script, Requesting;
    if s.child.AskWait? {
      AnswerKeepsInv(s);
    } else if s.child.PortRes? {
      RequestIsUnanswered(s);
    }
  }

  lemma AnswerKeepsInv(s: State)
    requires Inv(s) && Enabled(s, ChildMoves) && s.child.AskWait?
    ensures Inv(MoveChild(s))
  {
    hide HasRead, Script, Requesting, Answering, Descriptor;
  }

  lemma RequestIsUnanswered(s: State)
    ensures Requesting(s, 4) ==> s.toChild == []
  {
  }

  lemma ScriptIs(s: State)
    ensures var q := Script(s);
            |q| == 4 && q[0] == Cmd(GET_DATA_SOCK) && q[1] == Int(s.port) && q[2] == Int(|s.ip|) && q[3] == Buf(s.ip)
  {
  }

  lemma SendFirst(s: State, t: State)
    requires Quiet(s) && t == s.(child := t.child, toParent := s.toParent + [Cmd(GET_DATA_SOCK)])
    ensures Requesting(t, 1)
  {
    assert HasRead(t, 0) && t.toParent == Script(t)[0..1];
  }

  lemma SendNext(s: State, t: State, sent: nat)
    requires sent < 4 && Requesting(s, sent)
    requires t == s.(child := t.child, toParent := s.toParent + [Script(s)[sent]])
    ensures Requesting(t, sent + 1)
  {
    var n :| 0 <= n <= sent && HasRead(s, n) && s.toParent == Script(s)[n..sent];
    assert HasRead(t, n) && Script(t) == Script(s);
    hide HasRead, Script;
    OneMore(Script(s), n, sent);
  }

  lemma OneMore(script: seq<Msg>, from: nat, to: nat)
    requires from <= to < |script|
    ensures script[from..to] + [script[to]] == script[from..to + 1]
  {
  }

  lemma ParentKeepsInv(s: State, ok: bool, n: int)
    requires Inv(s) && Enabled(s, ParentMoves(ok, n))
    ensures Inv(MoveParent(s, ok, n))
  {
    hide HasRead, Script, Requesting;
    match s.child
    case PortInt => ReadNext(s, ok, n, 1);
    case PortLen => ReadNext(s, ok, n, 2);
    case PortBuf => ReadNext(s, ok, n, 3);
    case PortRes => if Requesting(s, 4) { ReadNext(s, ok, n, 4); }
    case _ =>
  }

  /** The parent reads the next message of the script as what it is, or answers the complete request. */
  lemma ReadNext(s: State, ok: bool, n: int, sent: nat)
    requires 1 <= sent <= 4 && Requesting(s, sent) && Enabled(s, ParentMoves(ok, n)) && PortOnly(s)
    requires 0 <= s.port < 0x1_0000 && |s.ip| <= 15
    ensures var t := MoveParent(s, ok, n);
            t == s.(parent := t.parent, toParent := t.toParent, toChild := t.toChild) &&
            (Requesting(t, sent) || (sent == 4 && Answering(t)))
  {
    var k :| 0 <= k <= sent && HasRead(s, k) && s.toParent == Script(s)[k..sent];
    if k < 4 { ReadScript(s, ok, n, sent, k); }
  }

  lemma ReadScript(s: State, ok: bool, n: int, sent: nat, k: nat)
    requires k < sent <= 4 && HasRead(s, k) && s.toParent == Script(s)[k..sent] && s.toChild == []
    requires 0 <= s.port < 0x1_0000 && |s.ip| <= 15
    ensures var t := MoveParent(s, ok, n);
            t == s.(parent := t.parent, toParent := t.toParent) && Requesting(t, sent)
  {
    var t := s.(parent := ParentReads(s.parent, Script(s)[k]), toParent := Script(s)[k + 1..sent]);
    assert HasRead(t, k + 1) && t.toParent == Script(t)[k + 1..sent];
    hide Script, HasRead, ParentReads;
    assert s.toParent[0] == Script(s)[k] && s.toParent[1..] == Script(s)[k + 1..sent];
    assert MoveParent(s, ok, n) == t;
  }

  lemma StepKeepsInv(s: State, e: Event)
    requires Inv(s) && Enabled(s, e)
    ensures Inv(Apply(s, e))
  {
    match e
    case ChildMoves => ChildKeepsInv(s);
    case ParentMoves(ok, n) => ParentKeepsInv(s, ok, n);
    case _ =>
  }

  // ---------- Whole runs ----------

  predicate Possible(s: State, events: seq<Event>)
    decreases |events|
  {
    |events| == 0 || (Enabled(s, events[0]) && Possible(Apply(s, events[0]), events[1..]))
  }

  function After(s: State, events: seq<Event>): State
    requires Possible(s, events)
    decreases |events|
  {
    if |events| == 0 then s else After(Apply(s, events[0]), events[1..])
  }

  lemma {:induction false} RunKeepsInv(s: State, events: seq<Event>)
    requires Inv(s) && Possible(s, events)
    ensures Inv(After(s, events))
    decreases |events|
  {
    if |events| > 0 {
      StepKeepsInv(s, events[0]);
      RunKeepsInv(Apply(s, events[0]), events[1..]);
    }
  }

  /** One of the processes can go on with the exchange. */
  predicate Progress(s: State) {
    Enabled(s, ChildMoves) || Enabled(s, ParentMoves(true, 0))
  }

  /**
   In every interleaving no message is read as the wrong kind, the channels are empty whenever the child
   is between commands, there is no deadlock, and the parent connects to the address of the PORT command.
   */
  lemma LockStep(events: seq<Event>)
    requires Possible(START, events)
    ensures var s := After(START, events);
            !s.child.ChildConfused? && !s.parent.ParentConfused? && (s.child.Ready? ==> Quiet(s)) &&
            (!s.child.Ready? ==> Progress(s)) &&
            (s.parent.Connect? ==> s.parent == Connect(s.port, s.ip))
  {
    RunKeepsInv(START, events);
    InvGoesOn(After(START, events));
  }

  lemma InvGoesOn(s: State)
    requires Inv(s)
    ensures !s.parent.ParentConfused? && (s.parent.Connect? ==> s.parent == Connect(s.port, s.ip))
    ensures !s.child.Ready? ==> Progress(s)
  {
    match s.child
    case PortRes =>
      if Requesting(s, 4) {
        var n :| 0 <= n <= 4 && HasRead(s, n) && s.toParent == Script(s)[n..4];
        assert n < 4 ==> s.toParent != [];
      }
    case _ =>
  }

  // ---------- get_transfer_fd returns ----------

  /** The child is inside `get_transfer_fd`. */
  predicate Transferring(s: State) {
    !s.child.Ready? && !s.child.ListenSend? && !s.child.ListenWait? && !s.child.ChildConfused?
  }

  predicate Internal(e: Event) {
    e.ChildMoves? || e.ParentMoves?
  }

  /** However it returns, neither mode is active afterwards. */
  lemma NeitherModeRemains(s: State, e: Event)
    requires Inv(s) && Enabled(s, e) && Transferring(s) && Apply(s, e).child.Ready?
    ensures !Apply(s, e).portPending && !Apply(s, e).listening
  {
  }

  // ---------- What get_transfer_fd returns ----------

  /** A step in which the network grants the connection, in the handler of either request. */
  predicate Grants(s: State, e: Event) {
    e.ParentMoves? && e.ok && (s.parent.Connect? || s.parent.Accept?)
  }

  predicate Granted(s: State, events: seq<Event>)
    requires Possible(s, events)
    decreases |events|
  {
    |events| > 0 && (Grants(s, events[0]) || Granted(Apply(s, events[0]), events[1..]))
  }

  /** The connection has been granted, and the child knows or will know. */
  predicate Settled(s: State) {
    match s.child
    case PortRes => s.toChild != [] && s.toChild[0] == Res(true)
    case AcceptRes => s.toChild != [] && s.toChild[0] == Res(true)
    case PortFd => true
    case AcceptFd => true
    case _ => s.result
  }

  lemma StepSettles(s: State, e: Event)
    requires Inv(s) && Enabled(s, e) && Internal(e) && Transferring(s)
    ensures Settled(Apply(s, e)) <==> Settled(s) || Grants(s, e)
    ensures Apply(s, e).dataFd == s.dataFd || Apply(s, e).dataFd == Wanted(s)
    ensures Apply(s, e).result ==> Apply(s, e).dataFd == Wanted(s)
    ensures Apply(s, e).child.Ready? || (Transferring(Apply(s, e)) && Wanted(Apply(s, e)) == Wanted(s))
  {
    hide HasRead, Script;
    match e
    case ChildMoves => SettlesInChild(s);
    case ParentMoves(ok, n) => SettlesInParent(s, ok, n);
  }

  lemma SettlesInChild(s: State)
    requires Inv(s) && Enabled(s, ChildMoves) && Transferring(s)
    ensures var t := MoveChild(s);
            (Settled(t) <==> Settled(s)) && (t.dataFd == s.dataFd || t.dataFd == Wanted(s)) &&
            (t.result ==> t.dataFd == Wanted(s)) && (t.child.Ready? || (Transferring(t) && Wanted(t) == Wanted(s)))
  {
    hide HasRead, Script;
  }

  lemma SettlesInParent(s: State, ok: bool, n: int)
    requires Inv(s) && Enabled(s, ParentMoves(ok, n)) && Transferring(s)
    ensures var t := MoveParent(s, ok, n);
            (Settled(t) <==> Settled(s) || Grants(s, ParentMoves(ok, n))) && t.dataFd == s.dataFd &&
            (t.result ==> t.dataFd == Wanted(s)) && Transferring(t) && Wanted(t) == Wanted(s)
  {
    hide HasRead, Script, Requesting;
    match s.child
    case PortInt => NoConnectYet(s, 1);
    case PortLen => NoConnectYet(s, 2);
    case PortBuf => NoConnectYet(s, 3);
    case PortRes => ScriptParent(s, 4);
    case _ =>
  }

  /** Before the request is complete the parent has not acted on it. */
  lemma NoConnectYet(s: State, sent: nat)
    requires sent <= 3
    ensures Requesting(s, sent) ==> s.toChild == [] && !s.parent.Connect? && !s.parent.Listen? && !s.parent.Accept?
  {
  }

  /**
   However the two processes interleave, `get_transfer_fd` returns 1 exactly when the network granted the
   connection, and then the descriptor is the one that PORT or PASV asked for.
   */
  lemma TransferDelivers(s: State, events: seq<Event>)
    requires Inv(s) && s.child.Ready? && Possible(Apply(s, GetTransferFd), events) && AllInternal(events)
    requires After(Apply(s, GetTransferFd), events).child.Ready?
    ensures var t := After(Apply(s, GetTransferFd), events);
            (t.result <==> Granted(Apply(s, GetTransferFd), events)) && (t.result ==> t.dataFd == Wanted(s))
  {
    StepKeepsInv(s, GetTransferFd);
    RunSettles(Apply(s, GetTransferFd), events);
  }

  lemma {:induction false} RunSettles(s: State, events: seq<Event>)
    requires Inv(s) && Possible(s, events) && AllInternal(events) && After(s, events).child.Ready? && Transferring(s)
    ensures After(s, events).result <==> Settled(s) || Granted(s, events)
    ensures After(s, events).result ==> After(s, events).dataFd == Wanted(s)
    decreases |events|
  {
    hide Inv, Enabled, Apply, Settled, Grants, Wanted, Internal;
    if |events| == 0 {
      assert false;
    } else {
      var e, next := events[0], Apply(s, events[0]);
      assert Internal(e) && AllInternal(events[1..]);
      StepSettles(s, e);
      StepKeepsInv(s, e);
      if next.child.Ready? {
        NothingMoves(next, events[1..]);
        SettledAtReady(next);
      } else {
        RunSettles(next, events[1..]);
      }
    }
  }

  lemma SettledAtReady(s: State)
    requires s.child.Ready?
    ensures Settled(s) <==> s.result
  {
  }

  /** Between commands neither process moves by itself. */
  lemma NothingMoves(s: State, events: seq<Event>)
    requires Inv(s) && s.child.Ready? && Possible(s, events) && AllInternal(events)
    ensures events == []
  {
    assert |events| > 0 ==> Internal(events[0]);
  }

  /** The connection was refused, or there is none to ask for. */
  predicate Refused(s: State) {
    match s.child
    case Ask(place) => if place == 3 then s.portPending && !s.result else !s.portPending && !s.listening
    case AskWait(place) => if place == 3 then s.portPending && !s.result else !s.portPending && !s.listening
    case PortRes => s.toChild != [] && s.toChild[0] == Res(false)
    case AcceptRes => s.toChild != [] && s.toChild[0] == Res(false)
    case Finish => !s.result
    case Ready => !s.result
    case _ => false
  }

  predicate AllOk(events: seq<Event>) {
    forall e | e in events && e.ParentMoves? :: e.ok
  }

  lemma StepNotRefused(s: State, e: Event)
    requires Inv(s) && Enabled(s, e) && Internal(e) && Transferring(s) && !BothPending(s) && !Refused(s)
    requires e.ParentMoves? ==> e.ok
    ensures !Refused(Apply(s, e)) && !BothPending(Apply(s, e))
  {
    hide Inv, Enabled, Refused, BothPending, MoveChild, MoveParent, Transferring;
    match e
    case ChildMoves => ChildNotRefused(s);
    case ParentMoves(ok, n) => ParentNotRefused(s, n);
  }

  lemma ChildNotRefused(s: State)
    requires Inv(s) && Enabled(s, ChildMoves) && Transferring(s) && !BothPending(s) && !Refused(s)
    ensures !Refused(MoveChild(s)) && !BothPending(MoveChild(s))
  {
    hide HasRead, Script;
  }

  lemma ParentNotRefused(s: State, n: int)
    requires Inv(s) && Enabled(s, ParentMoves(true, n)) && Transferring(s) && !BothPending(s) && !Refused(s)
    ensures !Refused(MoveParent(s, true, n)) && !BothPending(MoveParent(s, true, n))
  {
    hide HasRead, Script, Requesting;
    match s.child
    case PortInt => ScriptParent(s, 1);
    case PortLen => ScriptParent(s, 2);
    case PortBuf => ScriptParent(s, 3);
    case PortRes => ScriptParent(s, 4);
    case _ =>
  }

  lemma ScriptParent(s: State, sent: nat)
    requires sent <= 4
    ensures Requesting(s, sent) ==> s.toChild == [] && !s.parent.Listen? && !s.parent.Accept? && !s.parent.Active?
  {
  }

  /** With one mode pending and a network that grants everything, the call succeeds. */
  lemma PendingModeIsServed(s: State, events: seq<Event>)
    requires Inv(s) && s.child.Ready? && s.portPending != s.listening
    requires Possible(Apply(s, GetTransferFd), events) && AllInternal(events) && AllOk(events)
    requires After(Apply(s, GetTransferFd), events).child.Ready?
    ensures After(Apply(s, GetTransferFd), events).result
    ensures After(Apply(s, GetTransferFd), events).dataFd == Wanted(s)
  {
    StepKeepsInv(s, GetTransferFd);
    RunNotRefused(Apply(s, GetTransferFd), events);
    TransferDelivers(s, events);
  }

  lemma {:induction false} RunNotRefused(s: State, events: seq<Event>)
    requires Inv(s) && Possible(s, events) && AllInternal(events) && AllOk(events) && !BothPending(s) && !Refused(s)
    requires After(s, events).child.Ready? && (Transferring(s) || s.child.Ready?)
    ensures After(s, events).result
    decreases |events|
  {
    hide Inv, Enabled, Apply, BothPending, Internal;
    if s.child.Ready? {
      NothingMoves(s, events);
    } else if |events| > 0 {
      var e := events[0];
      assert Internal(e) && AllInternal(events[1..]) && AllOk(events[1..]) && (e.ParentMoves? ==> e.ok);
      StepNotRefused(s, e);
      StepSettles(s, e);
      StepKeepsInv(s, e);
      RunNotRefused(Apply(s, e), events[1..]);
    }
  }

  /** After PASV the client has been told the port that is listening. */
  lemma PasvAnnouncesListener(events: seq<Event>)
    requires Possible(START, events)
    ensures var s := After(START, events); s.child.Ready? && s.listening ==> s.announced == s.listenPort
  {
    RunKeepsInv(START, events);
  }

  /** And PASV does leave a listener: the exchange ends with one. */
  lemma PasvListens(s: State, e: Event)
    requires Inv(s) && s.child.ListenWait? && Enabled(s, e) && Apply(s, e).child.Ready?
    ensures Apply(s, e).listening && Apply(s, e).announced == Apply(s, e).listenPort
  {
  }

  /** How far the child is from the end of its command. */
  function ChildRank(c: Child): nat {
    match c
    case Ask(place) => if place == 1 then 17 else if place == 2 then 15 else 7
    case AskWait(place) => if place == 1 then 16 else if place == 2 then 14 else 6
    case PortCmd => 13 case PortInt => 12 case PortLen => 11 case PortBuf => 10 case PortRes => 9 case PortFd => 8
    case AcceptCmd => 5 case AcceptRes => 4 case AcceptFd => 3
    case Finish => 2
    case ListenSend => 2 case ListenWait => 1
    case Ready => 0
    case ChildConfused => 0
  }

  function ParentRank(p: Parent): nat {
    match p
    case Connect(_, _) => 4 case Accept => 4
    case SendFd(_) => 2 case Active => 2 case Listen => 2
    case _ => 0
  }

  function Rank(s: State): nat {
    10 * ChildRank(s.child) + ParentRank(s.parent) + 5 * |s.toParent| + |s.toChild|
  }

  predicate BothPending(s: State) {
    s.portPending && s.listening
  }

  lemma RankDrops(s: State, e: Event)
    requires Inv(s) && Enabled(s, e) && Internal(e) && Transferring(s) && !BothPending(s)
    ensures Rank(Apply(s, e)) < Rank(s) && !BothPending(Apply(s, e))
  {
    hide Inv, Rank, MoveChild, MoveParent, Enabled, Transferring;
    match e
    case ChildMoves => RankDropsInChild(s);
    case ParentMoves(ok, n) => RankDropsInParent(s, ok, n);
  }

  lemma RankDropsInChild(s: State)
    requires Inv(s) && Enabled(s, ChildMoves) && Transferring(s) && !BothPending(s)
    ensures Rank(MoveChild(s)) < Rank(s) && !BothPending(MoveChild(s))
  {
    if s.child.AskWait? {
      AnswerDropsRank(s);
    } else {
      hide *;
      OtherDropsRank(s);
    }
  }

  lemma OtherDropsRank(s: State)
    requires Enabled(s, ChildMoves) && Transferring(s) && !s.child.AskWait? && !BothPending(s)
    ensures Rank(MoveChild(s)) < Rank(s) && !BothPending(MoveChild(s))
  {
    RankSplits(s);
    RankSplits(MoveChild(s));
    hide Rank;
  }

  lemma RankSplits(s: State)
    ensures Rank(s) == 10 * ChildRank(s.child) + ParentRank(s.parent) + 5 * |s.toParent| + |s.toChild|
  {
  }

  lemma AnswerDropsRank(s: State)
    requires Inv(s) && Enabled(s, ChildMoves) && s.child.AskWait? && !BothPending(s)
    ensures ChildRank(MoveChild(s).child) < ChildRank(s.child) && Rank(MoveChild(s)) < Rank(s)
  {
    hide HasRead, Script, Requesting, Answering, Descriptor;
  }

  lemma RankDropsInParent(s: State, ok: bool, n: int)
    requires Inv(s) && Enabled(s, ParentMoves(ok, n)) && Transferring(s) && !BothPending(s)
    ensures Rank(MoveParent(s, ok, n)) < Rank(s) && !BothPending(MoveParent(s, ok, n))
  {
    hide HasRead, Script, Requesting;
    match s.child
    case PortInt => RankDropsInScript(s, ok, n, 1);
    case PortLen => RankDropsInScript(s, ok, n, 2);
    case PortBuf => RankDropsInScript(s, ok, n, 3);
    case PortRes => if Requesting(s, 4) { RankDropsInScript(s, ok, n, 4); }
    case _ =>
  }

  lemma RankDropsInScript(s: State, ok: bool, n: int, sent: nat)
    requires 1 <= sent <= 4 && Requesting(s, sent) && Enabled(s, ParentMoves(ok, n)) && PortOnly(s)
    requires 0 <= s.port < 0x1_0000 && |s.ip| <= 15
    ensures Rank(MoveParent(s, ok, n)) < Rank(s) && !MoveParent(s, ok, n).listening
  {
    var k :| 0 <= k <= sent && HasRead(s, k) && s.toParent == Script(s)[k..sent];
    if k == 4 {
      Answers(s, ok, n);
    } else {
      ReadMessage(s, ok, n, k);
      hide HasRead, Script, MoveParent, ParentReads;
      assert |Script(s)[k..sent]| > 0;
    }
  }

  /** The handler of a complete request answers with one message. */
  lemma Answers(s: State, ok: bool, n: int)
    requires s.parent.Connect?
    ensures var t := MoveParent(s, ok, n);
            t == s.(parent := t.parent, toChild := s.toChild + [Res(ok)]) && ParentRank(t.parent) <= 2
  {
  }

  /** Inside the script the parent takes one message and stays among its first states. */
  lemma ReadMessage(s: State, ok: bool, n: int, k: nat)
    requires k < 4 && HasRead(s, k) && s.toParent != []
    ensures var t := MoveParent(s, ok, n);
            t == s.(parent := t.parent, toParent := s.toParent[1..]) && ParentRank(t.parent) <= 4
  {
  }

  predicate AllInternal(events: seq<Event>) {
    forall e | e in events :: Internal(e)
  }

  /** The child stays inside `get_transfer_fd` for all of `events`. */
  predicate StaysInside(s: State, events: seq<Event>)
    requires Possible(s, events)
    decreases |events|
  {
    Transferring(s) && (|events| > 0 ==> StaysInside(Apply(s, events[0]), events[1..]))
  }

  /** With at most one mode pending, no run inside `get_transfer_fd` is longer than the rank at its start. */
  lemma {:induction false} TransferIsBounded(s: State, events: seq<Event>)
    requires Inv(s) && Possible(s, events) && AllInternal(events) && StaysInside(s, events) && !BothPending(s)
    ensures |events| <= Rank(s)
    decreases |events|
  {
    if |events| > 0 {
      assert Internal(events[0]);
      RankDrops(s, events[0]);
      StepKeepsInv(s, events[0]);
      TransferIsBounded(Apply(s, events[0]), events[1..]);
    }
  }

  /** With both modes pending, `port_active` and `pasv_active` call each other and it never returns. */
  lemma {:induction false} BothPendingSpins(s: State, events: seq<Event>)
    requires Inv(s) && Possible(s, events) && AllInternal(events) && BothPending(s)
    requires s.child == Ask(1) || s.child == AskWait(1)
    ensures StaysInside(s, events)
    decreases |events|
  {
    if |events| > 0 {
      assert Internal(events[0]);
      StepKeepsInv(s, events[0]);
      BothPendingSpins(Apply(s, events[0]), events[1..]);
    }
  }

  /** So a call returns, within 170 steps of the two processes, exactly when not both modes are pending. */
  lemma TransferReturnsExactlyWhen(s: State)
    requires Inv(s) && s.child.Ready?
    ensures var t := Apply(s, GetTransferFd);
            Inv(t) &&
            (BothPending(s) <==>
             exists events :: |events| > 170 && Possible(t, events) && AllInternal(events) && StaysInside(t, events))
  {
    var t := Apply(s, GetTransferFd);
    if BothPending(s) {
      var events := Spin(t, 171);
      BothPendingSpins(t, events);
    } else {
      forall events | Possible(t, events) && AllInternal(events) && StaysInside(t, events)
        ensures |events| <= 170
      {
        TransferIsBounded(t, events);
      }
    }
  }

  /** PORT followed by PASV leads there, so the condition is not an idle one. */
  lemma PortThenPasvIsBothPending(port: int, ip: string, n: int) returns (events: seq<Event>)
    requires 0 <= port < 0x1_0000 && 7 <= |ip| <= 15
    ensures Possible(START, events)
    ensures var s := After(START, events); s.child.Ready? && BothPending(s) && s.port == port && s.ip == ip
  {
    var s0 := Apply(START, DoPort(port, ip));
    var s1 := Apply(s0, DoPasv);
    var s2 := Apply(s1, ChildMoves);
    var s3 := Apply(s2, ParentMoves(true, n));
    var s4 := Apply(s3, ParentMoves(true, n));
    var e4 := OneStep(s4, ChildMoves, []);
    var e3 := OneStep(s3, ParentMoves(true, n), e4);
    var e2 := OneStep(s2, ParentMoves(true, n), e3);
    var e1 := OneStep(s1, ChildMoves, e2);
    var e0 := OneStep(s0, DoPasv, e1);
    events := OneStep(START, DoPort(port, ip), e0);
  }

  lemma OneStep(s: State, e: Event, rest: seq<Event>) returns (events: seq<Event>)
    requires Enabled(s, e) && Possible(Apply(s, e), rest)
    ensures events == [e] + rest && Possible(s, events) && After(s, events) == After(Apply(s, e), rest)
  {
    events := [e] + rest;
    assert events[1..] == rest;
  }

  /** A run of any length: whoever can move, moves. */
  lemma {:induction false} Spin(s: State, n: nat) returns (events: seq<Event>)
    requires Inv(s) && BothPending(s) && (s.child == Ask(1) || s.child == AskWait(1))
    ensures |events| == n && Possible(s, events) && AllInternal(events)
    decreases n
  {
    events := [];
    if n > 0 {
      InvGoesOn(s);
      var e := if Enabled(s, ChildMoves) then ChildMoves else ParentMoves(true, 0);
      StepKeepsInv(s, e);
      var rest := Spin(Apply(s, e), n - 1);
      events := [e] + rest;
      assert events[1..] == rest;
    }
  }
}
