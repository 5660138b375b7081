/** The non-blocking write cache of tty2tcp.c: `__kfifo_write` and the slot table around it. */
module Kfifo {
  import opened Bytes

  const CACHE_SIZE: nat := 2 * 1024 * 1024
  const CACHE_STEP: nat := 256 * 1024

  /**
   What the system answers during one call: how many bytes the socket takes of the direct and of the
   draining write, whether each failed with ECONNRESET when it took none, and whether malloc succeeds.
   */
  datatype Io = Io(direct: nat, directReset: bool, alloc: bool, drain: nat, drainReset: bool)

  /** The bytes the socket has taken, the bytes in `[out, in)`, and the two numbers that place them. */
  datatype Queue = Queue(sent: seq<byte>, queued: seq<byte>, size: nat, out: nat)

  const EMPTY := Queue([], [], 0, 0)

  function Min(a: nat, b: nat): nat {
    if a < b then a else b
  }

  /** `size - in`. */
  function Unused(q: Queue): int {
    q.size - q.out - |q.queued|
  }

  predicate Inv(q: Queue) {
    Unused(q) >= 0 && q.size <= CACHE_SIZE && q.size % CACHE_STEP == 0 && (q.queued == [] ==> q.out == 0)
  }

  // ---------- One call ----------

  function Compact(q: Queue, need: nat): Queue {
    if Unused(q) < need < Unused(q) + q.out then q.(out := 0) else q
  }

  function Grow(q: Queue, need: nat, alloc: bool): Queue {
    if Unused(q) < need && q.size < CACHE_SIZE && alloc then q.(size := q.size + CACHE_STEP, out := 0) else q
  }

  function Room(q: Queue, need: nat, alloc: bool): Queue {
    Grow(Compact(q, need), need, alloc)
  }

  function Append(q: Queue, chunk: seq<byte>): Queue {
    if Unused(q) < |chunk| then q else q.(queued := q.queued + chunk)
  }

  function Drain(q: Queue, take: nat): Queue {
    var n := Min(take, |q.queued|);
    q.(sent := q.sent + q.queued[..n], queued := q.queued[n..], out := if 0 < n == |q.queued| then 0 else q.out + n)
  }

  function Enqueue(q: Queue, chunk: seq<byte>, io: Io): Queue {
    Drain(Append(Room(q, |chunk|, io.alloc), chunk), io.drain)
  }

  /** Bytes of `chunk` the socket takes past the empty queue. */
  function Direct(q: Queue, chunk: seq<byte>, io: Io): (n: nat)
    ensures n <= |chunk|
  {
    if q.queued == [] then Min(io.direct, |chunk|) else 0
  }

  predicate DirectFails(q: Queue, chunk: seq<byte>, io: Io) {
    q.queued == [] && Direct(q, chunk, io) == 0 && io.directReset
  }

  function Written(q: Queue, chunk: seq<byte>, io: Io): Queue {
    var n := Direct(q, chunk, io);
    if DirectFails(q, chunk, io) then q
    else if n > 0 && n == |chunk| then q.(sent := q.sent + chunk)
    else Enqueue(q.(sent := q.sent + chunk[..n]), chunk[n..], io)
  }

  /** What `__kfifo_write` returns: whether no connection reset was seen. A drop counts as success. */
  predicate Reported(q: Queue, chunk: seq<byte>, io: Io) {
    var n := Direct(q, chunk, io);
    if DirectFails(q, chunk, io) then false
    else (n > 0 && n == |chunk|) ||
         !DrainFails(Append(Room(q.(sent := q.sent + chunk[..n]), |chunk| - n, io.alloc), chunk[n..]), io)
  }

  predicate DrainFails(q: Queue, io: Io) {
    q.queued != [] && io.drain == 0 && io.drainReset
  }

  // ---------- What one call keeps ----------

  /** The bytes of `chunk` that enter the stream: all, the directly written prefix, or none. */
  function Accepted(q: Queue, chunk: seq<byte>, io: Io): (a: seq<byte>)
    ensures a <= chunk
  {
    var n := Direct(q, chunk, io);
    if DirectFails(q, chunk, io) then []
    else if Unused(Room(q, |chunk| - n, io.alloc)) >= |chunk| - n then chunk
    else chunk[..n]
  }

  function Stream(q: Queue): seq<byte> {
    q.sent + q.queued
  }

  lemma WriteKeepsInv(q: Queue, chunk: seq<byte>, io: Io)
    requires Inv(q)
    ensures Inv(Written(q, chunk, io))
  {
    var n := Direct(q, chunk, io);
    var q1 := q.(sent := q.sent + chunk[..n]);
    var rest := chunk[n..];
    RoomKeepsInv(q1, |rest|, io.alloc);
    AppendDrainKeepInv(Room(q1, |rest|, io.alloc), rest, io.drain);
  }

  lemma RoomKeepsInv(q: Queue, need: nat, alloc: bool)
    requires Inv(q)
    ensures Inv(Room(q, need, alloc))
    ensures Stream(Room(q, need, alloc)) == Stream(q) && Room(q, need, alloc).sent == q.sent
  {
    StepMultiples(q);
  }

  lemma RoomIgnoresSent(q: Queue, q1: Queue, need: nat, alloc: bool)
    requires q1 == q.(sent := q1.sent)
    ensures Unused(Room(q1, need, alloc)) == Unused(Room(q, need, alloc))
    ensures Inv(q) ==> Inv(q1)
  {
  }

  lemma AppendDrainKeepInv(q: Queue, chunk: seq<byte>, take: nat)
    requires Inv(q)
    ensures Inv(Drain(Append(q, chunk), take))
  {
  }

  lemma DrainKeepsStream(q: Queue, take: nat)
    ensures Stream(Drain(q, take)) == Stream(q) && q.sent <= Drain(q, take).sent
  {
    var n := Min(take, |q.queued|);
    assert q.queued[..n] + q.queued[n..] == q.queued;
  }

  lemma EnqueueConserves(q: Queue, chunk: seq<byte>, io: Io)
    requires Inv(q)
    ensures Stream(Enqueue(q, chunk, io)) ==
            Stream(q) + if Unused(Room(q, |chunk|, io.alloc)) >= |chunk| then chunk else []
    ensures q.sent <= Enqueue(q, chunk, io).sent
  {
    hide Drain, Room, Inv;
    var room := Room(q, |chunk|, io.alloc);
    RoomKeepsInv(q, |chunk|, io.alloc);
    DrainKeepsStream(Append(room, chunk), io.drain);
    assert room.sent + (room.queued + chunk) == Stream(room) + chunk;
  }

  /** A prefix sent past the empty queue, and the rest behind it. */
  lemma PartialConserves(q: Queue, chunk: seq<byte>, n: nat, io: Io)
    requires Inv(q) && n <= |chunk| && (q.queued == [] || n == 0)
    ensures var next := Enqueue(q.(sent := q.sent + chunk[..n]), chunk[n..], io);
            var fits := Unused(Room(q, |chunk| - n, io.alloc)) >= |chunk| - n;
            Stream(next) == Stream(q) + (if fits then chunk else chunk[..n]) && q.sent <= next.sent
  {
    hide Enqueue, Room, Inv;
    var q1 := q.(sent := q.sent + chunk[..n]);
    RoomIgnoresSent(q, q1, |chunk[n..]|, io.alloc);
    EnqueueConserves(q1, chunk[n..], io);
    assert Stream(q1) == Stream(q) + chunk[..n];
    assert Stream(q) + chunk[..n] + chunk[n..] == Stream(q) + chunk;
  }

  /** Through bypass, compaction and growth, the stream grows by the accepted bytes and nothing else. */
  lemma WriteConserves(q: Queue, chunk: seq<byte>, io: Io)
    requires Inv(q)
    ensures Stream(Written(q, chunk, io)) == Stream(q) + Accepted(q, chunk, io)
    ensures q.sent <= Written(q, chunk, io).sent
  {
    hide Enqueue, Room, Inv;
    var n := Direct(q, chunk, io);
    if !DirectFails(q, chunk, io) {
      PartialConserves(q, chunk, n, io);
      if 0 < n == |chunk| {
        assert chunk[..n] == chunk && Stream(q.(sent := q.sent + chunk)) == Stream(q) + chunk;
      }
    }
  }

  /** A chunk of at most one step is never torn: it enters the stream whole or is dropped whole. */
  lemma WholeOrNothing(q: Queue, chunk: seq<byte>, io: Io)
    requires Inv(q) && |chunk| <= CACHE_STEP && io.alloc
    ensures Accepted(q, chunk, io) == chunk || Accepted(q, chunk, io) == []
  {
    StepMultiples(q);
  }

  /** It is dropped exactly when the cache is at its limit and full, or the connection was reset. */
  lemma DroppedExactlyWhen(q: Queue, chunk: seq<byte>, io: Io)
    requires Inv(q) && 0 < |chunk| <= CACHE_STEP && io.alloc
    ensures Accepted(q, chunk, io) == [] <==>
            DirectFails(q, chunk, io) ||
            (q.size == CACHE_SIZE && Unused(q) < |chunk| && |q.queued| + |chunk| >= CACHE_SIZE)
  {
    StepMultiples(q);
  }

  lemma StepMultiples(q: Queue)
    requires Inv(q)
    ensures q.size == 0 || q.size >= CACHE_STEP
    ensures q.size < CACHE_SIZE ==> q.size + CACHE_STEP <= CACHE_SIZE
  {
  }

  /** In general a chunk is torn exactly when a direct prefix was sent and the rest finds no room. */
  lemma TornExactlyWhen(q: Queue, chunk: seq<byte>, io: Io)
    requires Inv(q)
    ensures var n := Direct(q, chunk, io);
            var rest := |chunk| - n;
            var grown := if q.size < rest && q.size < CACHE_SIZE && io.alloc then q.size + CACHE_STEP else q.size;
            Accepted(q, chunk, io) !in {chunk, []} <==> 0 < n < |chunk| && grown < rest
  {
    var n := Direct(q, chunk, io);
    if 0 < n < |chunk| {
      assert chunk[..n] != chunk;
    }
    assert chunk[..0] == [] && chunk[..|chunk|] == chunk;
  }

  /** The rest of any chunk finds room exactly behind `in`, after sliding, or in a larger block. */
  lemma WholeExactlyWhen(q: Queue, chunk: seq<byte>, io: Io)
    requires Inv(q) && |chunk| > 0
    ensures var rest := |chunk| - Direct(q, chunk, io);
            Accepted(q, chunk, io) == chunk <==>
            !DirectFails(q, chunk, io) &&
            (rest <= Unused(q) || |q.queued| + rest < q.size ||
             (q.size < CACHE_SIZE && io.alloc && |q.queued| + rest <= q.size + CACHE_STEP))
  {
    var n := Direct(q, chunk, io);
    RoomExactly(q, |chunk| - n, io.alloc);
    hide Room, Inv;
    assert n < |chunk| ==> chunk[..n] != chunk;
  }

  lemma RoomExactly(q: Queue, need: nat, alloc: bool)
    requires Inv(q)
    ensures Unused(Room(q, need, alloc)) >= need <==>
            need <= Unused(q) || |q.queued| + need < q.size ||
            (q.size < CACHE_SIZE && alloc && |q.queued| + need <= q.size + CACHE_STEP)
  {
  }

  // ---------- What the socket gets ----------

  /** What the socket takes of the first write, which is made only past an empty queue. */
  function TakenDirectly(q: Queue, chunk: seq<byte>, io: Io): nat {
    if q.queued == [] then Min(io.direct, |chunk|) else 0
  }

  /** The first write took nothing and ended in a reset: the call ends there. */
  predicate ResetAtOnce(q: Queue, chunk: seq<byte>, io: Io) {
    q.queued == [] && TakenDirectly(q, chunk, io) == 0 && io.directReset
  }

  /** The first write took the whole chunk: the call ends there as well. */
  predicate AllAtOnce(q: Queue, chunk: seq<byte>, io: Io) {
    q.queued == [] && 0 < |chunk| <= io.direct
  }

  /** The bytes in the queue when the draining write is made, if it is. */
  function Waiting(q: Queue, chunk: seq<byte>, io: Io): (n: nat) {
    if ResetAtOnce(q, chunk, io) || AllAtOnce(q, chunk, io) then 0
    else |q.queued| + |Accepted(q, chunk, io)| - TakenDirectly(q, chunk, io)
  }

  function Taken(q: Queue, chunk: seq<byte>, io: Io): nat {
    TakenDirectly(q, chunk, io) + Min(io.drain, Waiting(q, chunk, io))
  }

  /** The socket gets the next bytes of the stream, exactly as many as it takes; the rest stays queued. */
  lemma SocketGets(q: Queue, chunk: seq<byte>, io: Io)
    requires Inv(q)
    ensures var next, whole := Written(q, chunk, io), Stream(q) + Accepted(q, chunk, io);
            |q.sent| + Taken(q, chunk, io) <= |whole| &&
            next.sent == whole[..|q.sent| + Taken(q, chunk, io)] &&
            next.queued == whole[|q.sent| + Taken(q, chunk, io)..]
  {
    WriteConserves(q, chunk, io);
    SentLength(q, chunk, io);
    hide Written, Accepted, Taken, Inv;
    var next, whole := Written(q, chunk, io), Stream(q) + Accepted(q, chunk, io);
    assert whole == next.sent + next.queued;
  }

  lemma SentLength(q: Queue, chunk: seq<byte>, io: Io)
    requires Inv(q)
    ensures |Written(q, chunk, io).sent| == |q.sent| + Taken(q, chunk, io)
  {
    hide Inv, Accepted, Waiting, Append, Room, Drain;
    var n := Direct(q, chunk, io);
    if DirectFails(q, chunk, io) || 0 < n == |chunk| {
      NoneWaiting(q, chunk, io);
    } else {
      var before := Offered(q, chunk, io);
      AppendedIsWaiting(q, chunk, io);
      DrainLength(before, io.drain);
    }
  }

  /** The queue when the draining write is made. */
  function Offered(q: Queue, chunk: seq<byte>, io: Io): Queue {
    var n := Direct(q, chunk, io);
    Append(Room(q.(sent := q.sent + chunk[..n]), |chunk[n..]|, io.alloc), chunk[n..])
  }

  lemma NoneWaiting(q: Queue, chunk: seq<byte>, io: Io)
    requires var n := Direct(q, chunk, io); DirectFails(q, chunk, io) || 0 < n == |chunk|
    ensures Waiting(q, chunk, io) == 0 && (ResetAtOnce(q, chunk, io) <==> DirectFails(q, chunk, io))
  {
    hide Accepted;
  }

  lemma AppendedIsWaiting(q: Queue, chunk: seq<byte>, io: Io)
    requires Inv(q) && var n := Direct(q, chunk, io); !DirectFails(q, chunk, io) && !(0 < n == |chunk|)
    ensures |Offered(q, chunk, io).queued| == Waiting(q, chunk, io)
    ensures |Offered(q, chunk, io).sent| == |q.sent| + TakenDirectly(q, chunk, io)
    ensures !ResetAtOnce(q, chunk, io)
  {
    var n := Direct(q, chunk, io);
    var q1, rest := q.(sent := q.sent + chunk[..n]), chunk[n..];
    RoomKeepsQueue(q1, |rest|, io.alloc);
    RoomIgnoresSent(q, q1, |rest|, io.alloc);
    AcceptedLength(q, chunk, io);
    assert !ResetAtOnce(q, chunk, io) && !AllAtOnce(q, chunk, io) && TakenDirectly(q, chunk, io) == n;
    assert |rest| == |chunk| - n && |q1.sent| == |q.sent| + n;
    hide Room, Inv, Accepted, Append, Direct, DirectFails, ResetAtOnce, AllAtOnce, TakenDirectly, Unused;
    AppendIs(Room(q1, |rest|, io.alloc), rest);
  }

  lemma AppendIs(q: Queue, chunk: seq<byte>)
    ensures |Append(q, chunk).queued| == |q.queued| + if Unused(q) >= |chunk| then |chunk| else 0
    ensures Append(q, chunk).sent == q.sent
  {
  }

  lemma AcceptedLength(q: Queue, chunk: seq<byte>, io: Io)
    requires !DirectFails(q, chunk, io)
    ensures var n := Direct(q, chunk, io);
            |Accepted(q, chunk, io)| == if Unused(Room(q, |chunk| - n, io.alloc)) >= |chunk| - n then |chunk| else n
  {
    hide Room;
  }

  lemma RoomKeepsQueue(q: Queue, need: nat, alloc: bool)
    ensures Room(q, need, alloc).queued == q.queued && Room(q, need, alloc).sent == q.sent
  {
  }

  lemma DrainLength(q: Queue, take: nat)
    ensures |Drain(q, take).sent| == |q.sent| + Min(take, |q.queued|)
  {
  }

  /** If no write is reset and the socket takes all it is offered, nothing stays behind. */
  lemma WillingSocketEmpties(q: Queue, chunk: seq<byte>, io: Io)
    requires Inv(q) && (q.queued == [] ==> io.direct > 0 || !io.directReset)
    requires io.drain >= |q.queued| + |chunk| && (|chunk| > 0 || !io.directReset)
    ensures Written(q, chunk, io).queued == []
    ensures Written(q, chunk, io).sent == Stream(q) + Accepted(q, chunk, io)
  {
    SocketGets(q, chunk, io);
    var n := TakenDirectly(q, chunk, io);
    assert |Accepted(q, chunk, io)| <= |chunk|;
    if AllAtOnce(q, chunk, io) {
      assert Accepted(q, chunk, io) == chunk;
    }
  }

  /** Zero is returned exactly when a write that took nothing ended in a reset. */
  lemma ReportedExactlyWhen(q: Queue, chunk: seq<byte>, io: Io)
    requires Inv(q)
    ensures !Reported(q, chunk, io) <==>
            ResetAtOnce(q, chunk, io) || (Waiting(q, chunk, io) > 0 && io.drain == 0 && io.drainReset)
  {
    hide Inv, Accepted, Waiting, Append, Room;
    var n := Direct(q, chunk, io);
    if DirectFails(q, chunk, io) || 0 < n == |chunk| {
      NoneWaiting(q, chunk, io);
    } else {
      AppendedIsWaiting(q, chunk, io);
      assert Reported(q, chunk, io) == !DrainFails(Offered(q, chunk, io), io);
    }
  }

  // ---------- Runs ----------

  datatype Call = Call(chunk: seq<byte>, io: Io)

  function Run(q: Queue, calls: seq<Call>): Queue
    decreases |calls|
  {
    if |calls| == 0 then q else Run(Written(q, calls[0].chunk, calls[0].io), calls[1..])
  }

  function AcceptedBy(q: Queue, calls: seq<Call>): seq<seq<byte>>
    decreases |calls|
  {
    if |calls| == 0 then []
    else [Accepted(q, calls[0].chunk, calls[0].io)] + AcceptedBy(Written(q, calls[0].chunk, calls[0].io), calls[1..])
  }

  /** Over every run, what was sent and what is queued is what was accepted, in order. */
  lemma {:induction false} RunConserves(q: Queue, calls: seq<Call>)
    requires Inv(q)
    ensures Inv(Run(q, calls))
    ensures Stream(Run(q, calls)) == Stream(q) + Flatten(AcceptedBy(q, calls))
    decreases |calls|
  {
    hide Written, Accepted, Inv;
    if |calls| > 0 {
      var chunk, io := calls[0].chunk, calls[0].io;
      var next := Written(q, chunk, io);
      WriteKeepsInv(q, chunk, io);
      WriteConserves(q, chunk, io);
      RunConserves(next, calls[1..]);
      assert Stream(q) + Accepted(q, chunk, io) + Flatten(AcceptedBy(next, calls[1..]))
          == Stream(q) + (Accepted(q, chunk, io) + Flatten(AcceptedBy(next, calls[1..])));
    }
  }

  function TakenBy(q: Queue, calls: seq<Call>): nat
    decreases |calls|
  {
    if |calls| == 0 then 0
    else Taken(q, calls[0].chunk, calls[0].io) + TakenBy(Written(q, calls[0].chunk, calls[0].io), calls[1..])
  }

  /** Over every run the socket has got the front of the stream, as many bytes as it took in all. */
  lemma {:induction false} RunSends(q: Queue, calls: seq<Call>)
    requires Inv(q)
    ensures var whole := Stream(q) + Flatten(AcceptedBy(q, calls));
            |q.sent| + TakenBy(q, calls) <= |whole| && Run(q, calls).sent == whole[..|q.sent| + TakenBy(q, calls)]
    decreases |calls|
  {
    RunConserves(q, calls);
    RunSentLength(q, calls);
    hide Run, AcceptedBy, TakenBy;
    var end := Run(q, calls);
    assert Stream(q) + Flatten(AcceptedBy(q, calls)) == end.sent + end.queued;
  }

  lemma {:induction false} RunSentLength(q: Queue, calls: seq<Call>)
    requires Inv(q)
    ensures |Run(q, calls).sent| == |q.sent| + TakenBy(q, calls)
    decreases |calls|
  {
    hide Written, Taken, Inv;
    if |calls| > 0 {
      SentLength(q, calls[0].chunk, calls[0].io);
      WriteKeepsInv(q, calls[0].chunk, calls[0].io);
      RunSentLength(Written(q, calls[0].chunk, calls[0].io), calls[1..]);
    }
  }

  /** With short chunks and memory, the receiver sees the concatenation of a subsequence of whole chunks. */
  lemma {:induction false} RunAcceptsWholeChunks(q: Queue, calls: seq<Call>)
    requires Inv(q) && forall c | c in calls :: |c.chunk| <= CACHE_STEP && c.io.alloc
    ensures |AcceptedBy(q, calls)| == |calls|
    ensures forall k | 0 <= k < |calls| :: AcceptedBy(q, calls)[k] in {calls[k].chunk, []}
    decreases |calls|
  {
    if |calls| > 0 {
      var chunk, io := calls[0].chunk, calls[0].io;
      assert calls[0] in calls;
      WriteKeepsInv(q, chunk, io);
      WholeOrNothing(q, chunk, io);
      RunAcceptsWholeChunks(Written(q, chunk, io), calls[1..]);
    }
  }

  // ---------- struct __kfifo ----------

  class Fifo {
    var fd: int
    var inn: nat
    var out: nat
    var size: nat
    var data: array<byte>
    ghost var sent: seq<byte>

    ghost predicate Valid()
      reads this, data
    {
      out <= inn <= size == data.Length && Inv(Abs())
    }

    ghost function Abs(): Queue
      requires out <= inn <= data.Length
      reads this, data
    {
      Queue(sent, data[out..inn], size, out)
    }

    constructor ()
      ensures Valid() && Abs() == EMPTY && fd == -1 && fresh(data)
    {
      fd, inn, out, size, sent := -1, 0, 0, 0, [];
      data := new byte[0];
    }

    /** A slot is taken or given back: its block stays, its bytes are forgotten. */
    method Reset(newFd: int)
      requires Valid()
      modifies this
      ensures Valid() && fd == newFd && data == old(data) && Abs() == EMPTY.(size := old(size))
    {
      fd, inn, out, sent := newFd, 0, 0, [];
    }

    /** `__kfifo_write`; the result is the C function's. */
    method Write(chunk: seq<byte>, io: Io) returns (ok: bool)
      requires Valid()
      modifies this, data
      ensures Valid() && Abs() == Written(old(Abs()), chunk, io)
      ensures fd == old(fd) && (data == old(data) || fresh(data))
      ensures ok == Reported(old(Abs()), chunk, io)
    {
      hide Append, Room, Enqueue;
      ghost var q0 := Abs();
      WriteKeepsInv(q0, chunk, io);
      var n := 0;
      if out == inn {
        n := Min(io.direct, |chunk|);
        if n > 0 {
          sent := sent + chunk[..n];
          if n == |chunk| {
            assert chunk[..n] == chunk;
            return true;
          }
        } else if io.directReset {
          return false;
        }
      }
      assert n == 0 ==> q0.sent + chunk[..n] == q0.sent;
      assert Abs() == q0.(sent := q0.sent + chunk[..n]);
      ok := Insert(chunk[n..], io);
    }

    /** The part of `__kfifo_write` behind the direct write. */
    method Insert(rest: seq<byte>, io: Io) returns (ok: bool)
      requires Valid()
      modifies this, data
      ensures out <= inn <= size == data.Length && Abs() == Enqueue(old(Abs()), rest, io)
      ensures ok == !DrainFails(Append(Room(old(Abs()), |rest|, io.alloc), rest), io)
      ensures fd == old(fd) && (data == old(data) || fresh(data))
    {
      hide Inv, Compact, Grow, Drain, DrainFails;
      CompactData(|rest|);
      GrowData(|rest|, io.alloc);
      if size - inn >= |rest| {
        CopyIn(rest);
      }
      ok := DrainOut(io);
    }

    /** Slide the queued bytes to the front. */
    method CompactData(need: nat)
      requires out <= inn <= size == data.Length
      modifies this`inn, this`out, data
      ensures out <= inn <= size == data.Length && Abs() == Compact(old(Abs()), need)
    {
      hide Inv;
      var unused := size - inn;
      if unused < need && need < unused + out {
        var len := inn - out;
        ghost var queued := data[out..inn];
        forall k | 0 <= k < len { data[k] := data[out + k]; }
        Moved(data, queued);
        inn, out := len, 0;
      }
    }

    /** Move the queued bytes to a larger block. */
    method GrowData(need: nat, alloc: bool)
      requires out <= inn <= size == data.Length
      modifies this`inn, this`out, this`size, this`data
      ensures out <= inn <= size == data.Length && Abs() == Grow(old(Abs()), need, alloc)
      ensures data == old(data) || fresh(data)
    {
      hide Inv;
      if size - inn < need && size < CACHE_SIZE && alloc {
        var len := inn - out;
        var block := new byte[size + CACHE_STEP];
        forall k | 0 <= k < len { block[k] := data[out + k]; }
        Moved(block, data[out..inn]);
        inn, out, size, data := len, 0, size + CACHE_STEP, block;
      }
    }

    method CopyIn(chunk: seq<byte>)
      requires out <= inn <= size == data.Length && size - inn >= |chunk|
      modifies this`inn, data
      ensures out <= inn <= size == data.Length
      ensures Abs() == old(Abs()).(queued := old(Abs()).queued + chunk)
    {
      forall k | 0 <= k < |chunk| { data[inn + k] := chunk[k]; }
      inn := inn + |chunk|;
    }

    method DrainOut(io: Io) returns (ok: bool)
      requires out <= inn <= size == data.Length
      modifies this
      ensures out <= inn <= size == data.Length && Abs() == Drain(old(Abs()), io.drain)
      ensures ok == !DrainFails(old(Abs()), io)
      ensures fd == old(fd) && data == old(data)
    {
      hide Inv;
      ok := true;
      var len := inn - out;
      assert sent + [] == sent && len == |Abs().queued|;
      if len > 0 {
        var n := Min(io.drain, len);
        assert data[out..inn][..n] == data[out..out + n] && data[out..inn][n..] == data[out + n..inn];
        if n > 0 {
          sent := sent + data[out..out + n];
          out := out + n;
          if out == inn {
            inn, out := 0, 0;
          }
        } else {
          ok := !io.drainReset;
        }
      }
    }
  }

  lemma Moved(a: array<byte>, s: seq<byte>)
    requires |s| <= a.Length && forall k | 0 <= k < |s| :: a[k] == s[k]
    ensures a[..|s|] == s
  {
  }

  // ---------- The slot table ----------

  const FIFO_NUM: nat := 12

  /** The first slot that holds `fd`, or the table's length. */
  function FirstIndex(fds: seq<int>, fd: int): (i: nat)
    ensures i <= |fds| && (i < |fds| ==> fds[i] == fd) && fd !in fds[..i]
  {
    if |fds| == 0 || fds[0] == fd then 0 else 1 + FirstIndex(fds[1..], fd)
  }

  function AllocFds(fds: seq<int>, fd: int): seq<int> {
    var i := FirstIndex(fds, -1);
    if fd == -1 || i == |fds| then fds else fds[i := fd]
  }

  function IdxOf(fds: seq<int>, fd: int): int {
    var i := FirstIndex(fds, fd);
    if fd == -1 || i == |fds| then -1 else i
  }

  function FreeSlot(fds: seq<int>): int {
    var i := FirstIndex(fds, -1);
    if i == |fds| then -1 else i
  }

  predicate Distinct(fds: seq<int>) {
    forall i, j | 0 <= i < j < |fds| :: fds[i] == fds[j] ==> fds[i] == -1
  }

  /** Allocation keeps every descriptor in one slot exactly when the new one is not in the table yet. */
  lemma AllocKeepsDistinct(fds: seq<int>, fd: int)
    requires Distinct(fds) && fd != -1 && -1 in fds
    ensures Distinct(AllocFds(fds, fd)) <==> fd !in fds
    ensures fd !in fds ==> IdxOf(AllocFds(fds, fd), fd) == FirstIndex(fds, -1)
  {
    var i, after := FirstIndex(fds, -1), AllocFds(fds, fd);
    assert i < |fds| && after[i] == fd;
    if fd in fds {
      var k :| 0 <= k < |fds| && fds[k] == fd;
      assert after[k] == fd && k != i;
    } else {
      assert after[..i] == fds[..i];
    }
  }

  /** While descriptors are distinct, freeing one removes it and leaves every other where it is. */
  lemma FreeRemoves(fds: seq<int>, fd: int, other: int)
    requires Distinct(fds) && fd != -1 && fd in fds && other != fd && other != -1
    ensures var after := fds[IdxOf(fds, fd) := -1];
            Distinct(after) && IdxOf(after, fd) == -1 && IdxOf(after, other) == IdxOf(fds, other)
  {
    var i := FirstIndex(fds, fd);
    var after := fds[i := -1];
    var j := FirstIndex(fds, other);
    assert fd !in after && i < |fds|;
    assert forall k | 0 <= k < j :: after[k] != other by {
      assert forall k | 0 <= k < j :: fds[k] in fds[..j];
    }
    FirstIndexIs(after, other, j);
  }

  class Table {
    const slots: seq<Fifo>

    ghost predicate Valid()
      reads this, slots, set f | f in slots :: f.data
    {
      |slots| == FIFO_NUM && (forall k | 0 <= k < FIFO_NUM :: slots[k].Valid()) &&
      (forall i, j | 0 <= i < j < FIFO_NUM :: slots[i] != slots[j] && slots[i].data != slots[j].data)
    }

    function Fds(): (fds: seq<int>)
      requires |slots| == FIFO_NUM
      reads this, slots
      ensures |fds| == FIFO_NUM && forall k | 0 <= k < FIFO_NUM :: fds[k] == slots[k].fd
    {
      seq(FIFO_NUM, k requires 0 <= k < FIFO_NUM reads this, slots => slots[k].fd)
    }

    constructor ()
      ensures Valid() && Fds() == seq(FIFO_NUM, _ => -1)
      ensures fresh(slots) && forall k | 0 <= k < FIFO_NUM :: slots[k].Abs() == EMPTY && fresh(slots[k].data)
    {
      var made: seq<Fifo> := [];
      while |made| < FIFO_NUM
        invariant |made| <= FIFO_NUM && fresh(made)
        invariant forall f | f in made :: f.Valid() && f.fd == -1 && fresh(f.data) && f.Abs() == EMPTY
        invariant forall i, j | 0 <= i < j < |made| :: made[i] != made[j] && made[i].data != made[j].data
      {
        var f := new Fifo();
        made := made + [f];
      }
      slots := made;
    }

    /** `kfifo_idx`. */
    method Idx(fd: int) returns (idx: int)
      requires Valid()
      ensures idx == IdxOf(Fds(), fd)
    {
      if fd == -1 { return fd; }
      var i := Find(fd);
      idx := if i == FIFO_NUM then -1 else i;
    }

    method Find(fd: int) returns (i: nat)
      requires Valid()
      ensures i == FirstIndex(Fds(), fd)
    {
      i := 0;
      while i < FIFO_NUM && slots[i].fd != fd
        invariant i <= FIFO_NUM && fd !in Fds()[..i]
      {
        i := i + 1;
      }
      FirstIndexIs(Fds(), fd, i);
    }

    /** `kfifo_alloc`: a taken slot starts with an empty stream, whatever its last user left queued. */
    method Alloc(fd: int) returns (idx: int)
      requires Valid()
      modifies slots
      ensures Valid() && Fds() == AllocFds(old(Fds()), fd)
      ensures idx == if fd == -1 then -1 else FreeSlot(old(Fds()))
      ensures forall k | 0 <= k < FIFO_NUM && k != idx :: unchanged(slots[k])
      ensures 0 <= idx < FIFO_NUM ==> slots[idx].Abs() == EMPTY.(size := old(slots[idx].size))
    {
      hide Inv, FirstIndex;
      if fd == -1 { return fd; }
      var i := Find(-1);
      if i == FIFO_NUM { return -1; }
      slots[i].Reset(fd);
      assert Fds() == old(Fds())[i := fd];
      idx := i;
    }

    /** `kfifo_free`. */
    method Free(idx: int)
      requires Valid()
      modifies slots
      ensures Valid()
      ensures Fds() == if 0 <= idx < FIFO_NUM then old(Fds())[idx := -1] else old(Fds())
      ensures forall k | 0 <= k < FIFO_NUM && k != idx :: unchanged(slots[k])
    {
      if idx < 0 || idx >= FIFO_NUM { return; }
      hide Inv;
      slots[idx].Reset(-1);
    }

    /** `kfifo_write`: only the addressed slot changes. */
    method Write(idx: int, chunk: seq<byte>, io: Io) returns (n: nat)
      requires Valid()
      modifies slots, if 0 <= idx < FIFO_NUM then {slots[idx].data} else {}
      ensures Valid() && Fds() == old(Fds())
      ensures !(0 <= idx < FIFO_NUM) ==> n == 0
      ensures 0 <= idx < FIFO_NUM ==>
                slots[idx].Abs() == Written(old(slots[idx].Abs()), chunk, io) &&
                n == if Reported(old(slots[idx].Abs()), chunk, io) then |chunk| else 0
      ensures forall k | 0 <= k < FIFO_NUM && k != idx :: slots[k].Abs() == old(slots[k].Abs())
    {
      if idx < 0 || idx >= FIFO_NUM { return 0; }
      var ok := slots[idx].Write(chunk, io);
      n := if ok then |chunk| else 0;
    }
  }

  lemma {:induction false} FirstIndexIs(fds: seq<int>, fd: int, i: nat)
    requires i <= |fds| && fd !in fds[..i] && (i < |fds| ==> fds[i] == fd)
    ensures FirstIndex(fds, fd) == i
  {
    if i > 0 {
      assert fds[0] in fds[..i] && fds[..i][1..] == fds[1..][..i - 1];
      FirstIndexIs(fds[1..], fd, i - 1);
    }
  }
}
