/**
 The region loop of `sahara_read_dump` in sahara.c: every region of the memory table is read in
 chunks, a failed read halves the chunk limit for good, and the answers go to a file.
 */
module Sahara {
  import opened Bytes

  const RAW_BUF: nat := 128 * 1024
  const MIN_READ: nat := 16 * 1024
  const WORD: nat := 0x1_0000_0000

  datatype Region = Region(base: nat, len: nat)

  /** A memory read as it goes on the wire, and whether all of its bytes came back. */
  datatype Request = Request(addr: nat, len: nat, answered: bool)

  /** What happens to one request: sending, reading or saving may fail, and a save may be short. */
  datatype Reply = TxFails | RxFails | Saved(bytes: nat) | SaveFails

  /** `limit` is `q_max_ram_dump_read`, `calls` counts the requests so far. */
  datatype Outcome = Outcome(ok: bool, limit: nat, calls: nat, requests: seq<Request>, file: seq<byte>)

  /** The limits that halving reaches from the initial 128 KiB. */
  predicate Limit(max: nat) {
    max == RAW_BUF || max == 64 * 1024 || max == 32 * 1024 || max == MIN_READ
  }

  function Min(a: nat, b: nat): nat {
    if a < b then a else b
  }

  /** The chunk length; the remaining length is cast to 32 bits before the comparison. */
  function ChunkLen(left: nat, limit: nat): nat {
    Min(left % WORD, limit)
  }

  /** Addresses are 64 bits wide; the 32-bit packet carries the low half. */
  function Space(wide: bool): nat {
    if wide then WORD * WORD else WORD
  }

  function WireAddr(wide: bool, addr: nat): nat {
    addr % Space(wide)
  }

  /** The surroundings of a run: the region, its memory, and what happens to the k-th request. */
  datatype World = World(wide: bool, r: Region, mem: nat -> byte, device: nat -> Reply) {
    /** The region's length fits 32 bits, and its addresses fit the packet. */
    predicate Readable() {
      r.len < WORD && r.base + r.len <= Space(wide)
    }
  }

  /** The loop from offset `cur` on. */
  function Read(w: World, cur: nat, limit: nat, k: nat): Outcome
    requires w.Readable() && cur <= w.r.len && Limit(limit)
    decreases w.r.len - cur, limit
  {
    if cur == w.r.len then Outcome(true, limit, k, [], [])
    else
      var n, addr := ChunkLen(w.r.len - cur, limit), WireAddr(w.wide, w.r.base + cur);
      match w.device(k)
      case TxFails => Outcome(false, limit, k + 1, [], [])
      case RxFails =>
        if limit > MIN_READ then Asked(addr, n, false, [], Read(w, cur, limit / 2, k + 1))
        else Outcome(false, limit, k + 1, [Request(addr, n, false)], [])
      case Saved(bytes) => Asked(addr, n, true, Memory(w.mem, addr, Min(bytes, n)), Read(w, cur + n, limit, k + 1))
      case SaveFails => Outcome(false, limit, k + 1, [Request(addr, n, true)], [])
  }

  /** One request before the rest of the loop. */
  function Asked(addr: nat, n: nat, answered: bool, bytes: seq<byte>, rest: Outcome): Outcome {
    rest.(requests := [Request(addr, n, answered)] + rest.requests, file := bytes + rest.file)
  }

  /** In a readable region the casts change nothing. */
  function Chunk(w: World, cur: nat, limit: nat): (n: nat)
    requires w.Readable() && cur < w.r.len && Limit(limit)
    ensures n == ChunkLen(w.r.len - cur, limit) == Min(w.r.len - cur, limit)
    ensures 0 < n <= RAW_BUF && cur + n <= w.r.len && (n == w.r.len - cur || n >= MIN_READ)
    ensures WireAddr(w.wide, w.r.base + cur) == w.r.base + cur
    ensures limit > MIN_READ ==> Limit(limit / 2) && 2 * (limit / 2) == limit
  {
    Min(w.r.len - cur, limit)
  }

  predicate Retries(w: World, limit: nat, k: nat) {
    w.device(k).RxFails? && limit > MIN_READ
  }

  lemma AfterFailure(w: World, cur: nat, limit: nat, k: nat)
    requires w.Readable() && cur < w.r.len && Limit(limit) && Retries(w, limit, k)
    ensures Limit(limit / 2)
    ensures Read(w, cur, limit, k)
         == Asked(w.r.base + cur, Chunk(w, cur, limit), false, [], Read(w, cur, limit / 2, k + 1))
  {
  }

  lemma AfterSave(w: World, cur: nat, limit: nat, k: nat)
    requires w.Readable() && cur < w.r.len && Limit(limit) && w.device(k).Saved?
    ensures var n := Chunk(w, cur, limit);
            Read(w, cur, limit, k) ==
            Asked(w.r.base + cur, n, true, Memory(w.mem, w.r.base + cur, Min(w.device(k).bytes, n)), Read(w, cur + n, limit, k + 1))
  {
  }

  lemma ReadDone(w: World, limit: nat, k: nat)
    requires w.Readable() && Limit(limit)
    ensures Read(w, w.r.len, limit, k) == Outcome(true, limit, k, [], [])
  {
  }

  lemma OrEnds(w: World, cur: nat, limit: nat, k: nat)
    requires w.Readable() && cur < w.r.len && Limit(limit) && !Retries(w, limit, k) && !w.device(k).Saved?
    ensures var out := Read(w, cur, limit, k);
            !out.ok && out.limit == limit && out.calls == k + 1 && out.file == [] &&
            out.requests == if w.device(k).TxFails? then []
                            else [Request(w.r.base + cur, Chunk(w, cur, limit), w.device(k).SaveFails?)]
  {
  }

  // ---------- Regions of any length ----------

  /** The loop after the replies so far: still running, or left with this result. */
  datatype Stage = Running(cur: nat, limit: nat) | Over(ok: bool)

  /** The passes of the loop, one reply each, for a region of any length. */
  function Passes(len: nat, cur: nat, limit: nat, replies: seq<Reply>): Stage
    decreases |replies|
  {
    if cur >= len then Over(true)
    else if |replies| == 0 then Running(cur, limit)
    else
      match replies[0]
      case TxFails => Over(false)
      case RxFails => if limit > MIN_READ then Passes(len, cur, limit / 2, replies[1..]) else Over(false)
      case Saved(_) => Passes(len, cur + ChunkLen(len - cur, limit), limit, replies[1..])
      case SaveFails => Over(false)
  }

  function Replies(device: nat -> Reply, from: nat, to: nat): seq<Reply>
    requires from <= to
  {
    seq(to - from, i requires 0 <= i < to - from => device(from + i))
  }

  lemma {:induction false} CallsGrow(w: World, cur: nat, limit: nat, k: nat)
    requires w.Readable() && cur <= w.r.len && Limit(limit)
    ensures k <= Read(w, cur, limit, k).calls && (cur < w.r.len ==> k < Read(w, cur, limit, k).calls)
    decreases w.r.len - cur, limit
  {
    hide Limit, Memory, ChunkLen, WireAddr;
    if cur < w.r.len {
      hide Read;
      if Retries(w, limit, k) {
        AfterFailure(w, cur, limit, k);
        CallsGrow(w, cur, limit / 2, k + 1);
      } else if w.device(k).Saved? {
        AfterSave(w, cur, limit, k);
        CallsGrow(w, cur + Chunk(w, cur, limit), limit, k + 1);
      } else {
        OrEnds(w, cur, limit, k);
      }
    }
  }

  /** For a readable region, `Read` is these passes over the replies it consumes. */
  lemma {:induction false} ReadIsPasses(w: World, cur: nat, limit: nat, k: nat, end: nat)
    requires w.Readable() && cur <= w.r.len && Limit(limit) && k <= end == Read(w, cur, limit, k).calls
    ensures Passes(w.r.len, cur, limit, Replies(w.device, k, end)) == Over(Read(w, cur, limit, k).ok)
    decreases w.r.len - cur, limit
  {
    hide Limit, Memory, WireAddr, ChunkLen;
    if cur < w.r.len {
      hide Read;
      CallsGrow(w, cur, limit, k);
      RepliesStep(w.device, k, end);
      if Retries(w, limit, k) {
        AfterFailure(w, cur, limit, k);
        ReadIsPasses(w, cur, limit / 2, k + 1, end);
      } else if w.device(k).Saved? {
        AfterSave(w, cur, limit, k);
        ReadIsPasses(w, cur + Chunk(w, cur, limit), limit, k + 1, end);
      } else {
        OrEnds(w, cur, limit, k);
      }
    }
  }

  lemma RepliesStep(device: nat -> Reply, from: nat, to: nat)
    requires from < to
    ensures var replies := Replies(device, from, to);
            |replies| > 0 && replies[0] == device(from) && replies[1..] == Replies(device, from + 1, to)
  {
  }

  predicate AllSaved(replies: seq<Reply>) {
    forall i | 0 <= i < |replies| :: replies[i].Saved?
  }

  /** A chunk never crosses a distance of a multiple of 4 GiB to the end of the region. */
  lemma ChunkStops(left: nat, limit: nat)
    requires Limit(limit)
    ensures ChunkLen(left, limit) <= left % WORD
    ensures left >= WORD ==> left - ChunkLen(left, limit) >= WORD
    ensures 0 < left < WORD ==> ChunkLen(left, limit) == Min(left, limit) > 0
    ensures ChunkLen(left, limit) == 0 <==> left % WORD == 0
  {
  }

  lemma {:induction false} LongRegionGoesOn(len: nat, cur: nat, limit: nat, replies: seq<Reply>)
    requires Limit(limit) && len >= cur + WORD
    ensures Passes(len, cur, limit, replies) != Over(true)
    ensures AllSaved(replies) ==> Passes(len, cur, limit, replies).Running?
    decreases |replies|
  {
    hide ChunkLen;
    ChunkStops(len - cur, limit);
    if |replies| > 0 {
      if replies[0].RxFails? {
        if limit > MIN_READ { LongRegionGoesOn(len, cur, limit / 2, replies[1..]); }
      } else if replies[0].Saved? {
        LongRegionGoesOn(len, cur + ChunkLen(len - cur, limit), limit, replies[1..]);
      }
    }
  }

  lemma {:induction false} ShortRegionCompletes(len: nat, cur: nat, limit: nat, replies: seq<Reply>)
    requires Limit(limit) && cur <= len < cur + WORD && AllSaved(replies) && |replies| >= Pieces(len - cur)
    ensures Passes(len, cur, limit, replies) == Over(true)
    decreases |replies|
  {
    hide ChunkLen, Pieces;
    if cur < len {
      ChunkStops(len - cur, limit);
      var n := ChunkLen(len - cur, limit);
      PiecesDrop(len - cur, n);
      ShortRegionCompletes(len, cur + n, limit, replies[1..]);
    }
  }

  /**
   A region whose requests are all answered is read to its end exactly when it is shorter than 4 GiB. A
   longer one is never read to its end, whatever the replies: a multiple of 4 GiB before it, the 32-bit
   cast leaves requests for no bytes at all.
   */
  lemma CompletesExactlyWhen(len: nat, limit: nat)
    requires Limit(limit)
    ensures len < WORD <==>
            forall replies | AllSaved(replies) && |replies| >= Pieces(len) :: Passes(len, 0, limit, replies) == Over(true)
    ensures len >= WORD ==> forall replies :: Passes(len, 0, limit, replies) != Over(true)
  {
    hide Passes, Pieces;
    if len < WORD {
      forall replies | AllSaved(replies) && |replies| >= Pieces(len)
        ensures Passes(len, 0, limit, replies) == Over(true)
      {
        ShortRegionCompletes(len, 0, limit, replies);
      }
    } else {
      var saved := seq(Pieces(len), i => Saved(0));
      assert AllSaved(saved);
      forall replies ensures Passes(len, 0, limit, replies) != Over(true) {
        LongRegionGoesOn(len, 0, limit, replies);
      }
      assert Passes(len, 0, limit, saved) != Over(true);
    }
  }

  /** There the loop stays: an answered request for nothing changes neither offset nor limit. */
  lemma {:induction false} ZeroRequestsChangeNothing(len: nat, cur: nat, limit: nat, replies: seq<Reply>)
    requires Limit(limit) && cur < len && (len - cur) % WORD == 0 && AllSaved(replies)
    ensures Passes(len, cur, limit, replies) == Running(cur, limit)
    decreases |replies|
  {
    if |replies| > 0 { ZeroRequestsChangeNothing(len, cur, limit, replies[1..]); }
  }

  // ---------- What the requests cover ----------

  function Answered(requests: seq<Request>): seq<Request> {
    if |requests| == 0 then []
    else (if requests[0].answered then [requests[0]] else []) + Answered(requests[1..])
  }

  function Failures(requests: seq<Request>): nat {
    if |requests| == 0 then 0 else (if requests[0].answered then 0 else 1) + Failures(requests[1..])
  }

  /** The requests follow one another without gap or overlap from `from` to `to`. */
  predicate Tiles(requests: seq<Request>, from: nat, to: nat) {
    if |requests| == 0 then from == to
    else requests[0].addr == from && requests[0].len > 0 && Tiles(requests[1..], from + requests[0].len, to)
  }

  function Pow2(n: nat): nat {
    if n == 0 then 1 else 2 * Pow2(n - 1)
  }

  lemma Cons(q: Request, rest: seq<Request>)
    ensures Answered([q] + rest) == if q.answered then [q] + Answered(rest) else Answered(rest)
    ensures Failures([q] + rest) == (if q.answered then 0 else 1) + Failures(rest)
  {
    assert ([q] + rest)[1..] == rest;
  }

  /** What one request adds to the rest of the loop. */
  lemma AskedAdds(addr: nat, n: nat, answered: bool, bytes: seq<byte>, rest: Outcome)
    ensures var out := Asked(addr, n, answered, bytes, rest);
            out.ok == rest.ok && out.limit == rest.limit && out.calls == rest.calls && out.file == bytes + rest.file &&
            |out.requests| == |rest.requests| + 1 &&
            Failures(out.requests) == Failures(rest.requests) + (if answered then 0 else 1)
  {
    Cons(Request(addr, n, answered), rest.requests);
  }

  predicate Inside(requests: seq<Request>, from: nat, to: nat) {
    forall q | q in requests :: 0 < q.len <= RAW_BUF && from <= q.addr && q.addr + q.len <= to
  }

  /** Every request lies inside the region and fits the receive buffer, whatever the device does. */
  lemma {:induction false} RequestsStayInside(w: World, cur: nat, limit: nat, k: nat)
    requires w.Readable() && cur <= w.r.len && Limit(limit)
    ensures Inside(Read(w, cur, limit, k).requests, w.r.base + cur, w.r.base + w.r.len)
    decreases w.r.len - cur, limit
  {
    hide *;
    var from, to := w.r.base + cur, w.r.base + w.r.len;
    if cur == w.r.len {
      ReadDone(w, limit, k);
      InsideNone(from, to);
    } else {
      var n := Chunk(w, cur, limit);
      if Retries(w, limit, k) {
        RetryHalves(w, limit, k);
        AfterFailure(w, cur, limit, k);
        RequestsStayInside(w, cur, limit / 2, k + 1);
        InsideAsked(from, n, false, [], Read(w, cur, limit / 2, k + 1), from, to);
      } else if w.device(k).Saved? {
        AfterSave(w, cur, limit, k);
        RequestsStayInside(w, cur + n, limit, k + 1);
        InsideAsked(from, n, true, Memory(w.mem, from, Min(w.device(k).bytes, n)),
                    Read(w, cur + n, limit, k + 1), from + n, to);
      } else {
        OrEnds(w, cur, limit, k);
        InsideNone(from, to);
        InsideCons(Request(from, n, w.device(k).SaveFails?), [], from, from, to);
      }
    }
  }

  lemma InsideAsked(from: nat, n: nat, answered: bool, bytes: seq<byte>, rest: Outcome, next: nat, to: nat)
    requires 0 < n <= RAW_BUF && from + n <= to && from <= next && Inside(rest.requests, next, to)
    ensures Inside(Asked(from, n, answered, bytes, rest).requests, from, to)
  {
    InsideCons(Request(from, n, answered), rest.requests, from, next, to);
  }

  lemma InsideNone(from: nat, to: nat)
    ensures Inside([], from, to)
  {
  }

  lemma InsideCons(q: Request, rest: seq<Request>, from: nat, from': nat, to: nat)
    requires 0 < q.len <= RAW_BUF && from <= q.addr && q.addr + q.len <= to
    requires from <= from' && (rest == [] || Inside(rest, from', to))
    ensures Inside([q] + rest, from, to) && (rest == [] ==> Inside([q], from, to))
  {
  }

  /** A region that is read successfully is tiled once, in order, by the answered requests. */
  lemma {:induction false} AnsweredRequestsTile(w: World, cur: nat, limit: nat, k: nat)
    requires w.Readable() && cur <= w.r.len && Limit(limit) && Read(w, cur, limit, k).ok
    ensures Tiles(Answered(Read(w, cur, limit, k).requests), w.r.base + cur, w.r.base + w.r.len)
    decreases w.r.len - cur, limit
  {
    hide Limit, Memory, ChunkLen, WireAddr;
    if cur < w.r.len {
      hide Read;
      var n := Chunk(w, cur, limit);
      if Retries(w, limit, k) {
        AfterFailure(w, cur, limit, k);
        AnsweredRequestsTile(w, cur, limit / 2, k + 1);
        Cons(Request(w.r.base + cur, n, false), Read(w, cur, limit / 2, k + 1).requests);
      } else if w.device(k).Saved? {
        AfterSave(w, cur, limit, k);
        AnsweredRequestsTile(w, cur + n, limit, k + 1);
        Cons(Request(w.r.base + cur, n, true), Read(w, cur + n, limit, k + 1).requests);
      } else {
        OrEnds(w, cur, limit, k);
      }
    }
  }

  ghost predicate CompleteSaves(device: nat -> Reply) {
    forall i :: device(i).Saved? ==> device(i).bytes >= RAW_BUF
  }

  /** When every save is complete, the file is the region's memory. */
  lemma {:induction false} FileIsMemory(w: World, cur: nat, limit: nat, k: nat)
    requires w.Readable() && cur <= w.r.len && Limit(limit) && Read(w, cur, limit, k).ok
    requires CompleteSaves(w.device)
    ensures Read(w, cur, limit, k).file == Memory(w.mem, w.r.base + cur, w.r.len - cur)
    decreases w.r.len - cur, limit
  {
    hide Limit, Memory, ChunkLen, WireAddr;
    if cur < w.r.len {
      hide Read;
      var n := Chunk(w, cur, limit);
      if Retries(w, limit, k) {
        AfterFailure(w, cur, limit, k);
        FileIsMemory(w, cur, limit / 2, k + 1);
      } else if w.device(k).Saved? {
        AfterSave(w, cur, limit, k);
        FileIsMemory(w, cur + n, limit, k + 1);
        MemoryAppend(w.mem, w.r.base + cur, n, w.r.len - cur - n);
      } else {
        OrEnds(w, cur, limit, k);
      }
    }
  }

  /** A failure is tolerated only by halving the limit, and the limit never falls below 16 KiB. */
  ghost predicate Halved(limit: nat, out: Outcome) {
    Limit(out.limit) && out.limit <= limit &&
    (out.ok ==> out.limit * Pow2(Failures(out.requests)) == limit) &&
    MIN_READ * Pow2(Failures(out.requests)) <= 2 * limit
  }

  lemma {:induction false} FailuresHalveTheLimit(w: World, cur: nat, limit: nat, k: nat)
    requires w.Readable() && cur <= w.r.len && Limit(limit)
    ensures Halved(limit, Read(w, cur, limit, k))
    decreases w.r.len - cur, limit
  {
    hide *;
    if cur == w.r.len {
      ReadDone(w, limit, k);
      NoFailure(limit, k);
    } else {
      var n, out := Chunk(w, cur, limit), Read(w, cur, limit, k);
      if Retries(w, limit, k) {
        RetryHalves(w, limit, k);
        var rest := Read(w, cur, limit / 2, k + 1);
        AfterFailure(w, cur, limit, k);
        FailuresHalveTheLimit(w, cur, limit / 2, k + 1);
        AskedAdds(w.r.base + cur, n, false, [], rest);
        Doubling(limit, out, rest);
      } else if w.device(k).Saved? {
        var rest := Read(w, cur + n, limit, k + 1);
        AfterSave(w, cur, limit, k);
        FailuresHalveTheLimit(w, cur + n, limit, k + 1);
        AskedAdds(w.r.base + cur, n, true, Memory(w.mem, w.r.base + cur, Min(w.device(k).bytes, n)), rest);
        SameHalving(limit, out, rest);
      } else {
        OrEnds(w, cur, limit, k);
        OneFailure(limit, out);
      }
    }
  }

  lemma NoFailure(limit: nat, k: nat)
    requires Limit(limit)
    ensures Halved(limit, Outcome(true, limit, k, [], []))
  {
    assert Pow2(0) == 1;
  }

  lemma RetryHalves(w: World, limit: nat, k: nat)
    requires Retries(w, limit, k) && Limit(limit)
    ensures limit > MIN_READ && Limit(limit / 2)
  {
  }

  lemma SameHalving(limit: nat, out: Outcome, rest: Outcome)
    requires Halved(limit, rest) && out.ok == rest.ok && out.limit == rest.limit
    requires Failures(out.requests) == Failures(rest.requests)
    ensures Halved(limit, out)
  {
    hide Pow2, Failures, Limit;
  }

  lemma OneFailure(limit: nat, out: Outcome)
    requires Limit(limit) && !out.ok && out.limit == limit && |out.requests| <= 1
    ensures Halved(limit, out)
  {
    assert Pow2(0) == 1 && Pow2(1) == 2;
    assert Failures(out.requests) <= 1;
  }

  lemma ReadKeepsLimit(w: World, limit: nat, k: nat)
    requires w.Readable() && Limit(limit)
    ensures Limit(Read(w, 0, limit, k).limit)
  {
    FailuresHalveTheLimit(w, 0, limit, k);
  }

  lemma Doubling(limit: nat, out: Outcome, rest: Outcome)
    requires Limit(limit) && limit > MIN_READ && Halved(limit / 2, rest)
    requires out.ok == rest.ok && out.limit == rest.limit && Failures(out.requests) == Failures(rest.requests) + 1
    ensures Halved(limit, out)
  {
    var f := Failures(rest.requests);
    assert rest.limit * Pow2(f + 1) == 2 * (rest.limit * Pow2(f));
    assert MIN_READ * Pow2(f + 1) == 2 * (MIN_READ * Pow2(f));
  }

  lemma HalvedFewTimes(limit: nat, out: Outcome)
    requires Limit(limit) && Halved(limit, out)
    ensures Failures(out.requests) <= 4 && (out.ok ==> Failures(out.requests) <= 3)
  {
    var f := Failures(out.requests);
    assert Pow2(4) == 16 && Pow2(5) == 32;
    if f > 4 { Pow2Grows(5, f); }
    if f > 3 && out.ok { Scale(out.limit, MIN_READ, f); }
  }

  lemma Scale(a: nat, b: nat, f: nat)
    requires a >= b && f >= 4
    ensures a * Pow2(f) >= b * Pow2(4)
  {
    Pow2Grows(4, f);
    assert a * Pow2(f) >= a * Pow2(4) >= b * Pow2(4);
  }

  lemma {:induction false} Pow2Grows(a: nat, b: nat)
    requires a <= b
    ensures Pow2(a) <= Pow2(b)
  {
    if a < b { Pow2Grows(a, b - 1); }
  }

  function Pieces(len: nat): nat {
    (len + MIN_READ - 1) / MIN_READ
  }

  lemma PiecesDrop(len: nat, n: nat)
    requires 0 < n <= len && (n == len || n >= MIN_READ)
    ensures Pieces(len) >= 1 + Pieces(len - n) >= 1
  {
  }

  /** The loop ends: besides the failures there is at most one request per 16 KiB of the region. */
  lemma {:induction false} RequestsAreFew(w: World, cur: nat, limit: nat, k: nat)
    requires w.Readable() && cur <= w.r.len && Limit(limit)
    ensures var out := Read(w, cur, limit, k);
            |out.requests| <= Failures(out.requests) + Pieces(w.r.len - cur)
    decreases w.r.len - cur, limit
  {
    hide *;
    if cur == w.r.len {
      ReadDone(w, limit, k);
    } else {
      var n, out := Chunk(w, cur, limit), Read(w, cur, limit, k);
      PiecesDrop(w.r.len - cur, n);
      if Retries(w, limit, k) {
        RetryHalves(w, limit, k);
        var rest := Read(w, cur, limit / 2, k + 1);
        AfterFailure(w, cur, limit, k);
        RequestsAreFew(w, cur, limit / 2, k + 1);
        AskedAdds(w.r.base + cur, n, false, [], rest);
        assert |out.requests| == |rest.requests| + 1 && Failures(out.requests) == Failures(rest.requests) + 1;
      } else if w.device(k).Saved? {
        var rest := Read(w, cur + n, limit, k + 1);
        AfterSave(w, cur, limit, k);
        RequestsAreFew(w, cur + n, limit, k + 1);
        AskedAdds(w.r.base + cur, n, true, Memory(w.mem, w.r.base + cur, Min(w.device(k).bytes, n)), rest);
        assert |out.requests| == |rest.requests| + 1 && Failures(out.requests) == Failures(rest.requests);
      } else {
        OrEnds(w, cur, limit, k);
        assert |out.requests| <= 1;
      }
    }
  }

  // ---------- When a region succeeds, what is asked, what is kept ----------

  /** Sending or saving failed: the region ends. */
  predicate Fatal(q: Reply) {
    q.TxFails? || q.SaveFails?
  }

  predicate NoneFatal(replies: seq<Reply>) {
    forall i | 0 <= i < |replies| :: !Fatal(replies[i])
  }

  function ReadFails(replies: seq<Reply>): nat {
    if |replies| == 0 then 0 else (if replies[0].RxFails? then 1 else 0) + ReadFails(replies[1..])
  }

  /** How often the limit can still be halved. */
  function Halvings(limit: nat): nat {
    if limit == RAW_BUF then 3 else if limit == 64 * 1024 then 2 else if limit == 32 * 1024 then 1 else 0
  }

  lemma FailsCons(q: Reply, rest: seq<Reply>)
    ensures ReadFails([q] + rest) == (if q.RxFails? then 1 else 0) + ReadFails(rest)
    ensures NoneFatal([q] + rest) <==> !Fatal(q) && NoneFatal(rest)
  {
    assert ([q] + rest)[1..] == rest && ([q] + rest)[0] == q;
    assert forall i | 0 <= i < |rest| :: rest[i] == ([q] + rest)[i + 1];
  }

  lemma RepliesCons(device: nat -> Reply, from: nat, to: nat)
    requires from < to
    ensures Replies(device, from, to) == [device(from)] + Replies(device, from + 1, to)
  {
  }

  lemma Halves(limit: nat)
    requires Limit(limit)
    ensures limit > MIN_READ <==> Halvings(limit) > 0
    ensures limit > MIN_READ ==> Limit(limit / 2) && Halvings(limit / 2) + 1 == Halvings(limit)
  {
  }

  /**
   A region is read to its end exactly when no send or save fails and no more reads fail than the limit can
   be halved; what is left of the halvings is what the next region has.
   */
  lemma {:induction false} SucceedsExactlyWhen(w: World, cur: nat, limit: nat, k: nat, end: nat)
    requires w.Readable() && cur <= w.r.len && Limit(limit) && k <= end == Read(w, cur, limit, k).calls
    ensures var replies, out := Replies(w.device, k, end), Read(w, cur, limit, k);
            (out.ok <==> NoneFatal(replies) && ReadFails(replies) <= Halvings(limit)) &&
            (out.ok ==> Halvings(out.limit) + ReadFails(replies) == Halvings(limit))
    decreases w.r.len - cur, limit
  {
    hide *;
    if cur == w.r.len {
      ReadDone(w, limit, k);
      NoReplies(w.device, k);
    } else {
      CallsGrow(w, cur, limit, k);
      RepliesCons(w.device, k, end);
      FailsCons(w.device(k), Replies(w.device, k + 1, end));
      Halves(limit);
      ReplyKinds(w, limit, k);
      if Retries(w, limit, k) {
        AfterFailure(w, cur, limit, k);
        var rest := Read(w, cur, limit / 2, k + 1);
        AskedAdds(w.r.base + cur, Chunk(w, cur, limit), false, [], rest);
        CallsGrow(w, cur, limit / 2, k + 1);
        SucceedsExactlyWhen(w, cur, limit / 2, k + 1, end);
      } else if w.device(k).Saved? {
        var n := Chunk(w, cur, limit);
        AfterSave(w, cur, limit, k);
        var rest := Read(w, cur + n, limit, k + 1);
        AskedAdds(w.r.base + cur, n, true, Memory(w.mem, w.r.base + cur, Min(w.device(k).bytes, n)), rest);
        CallsGrow(w, cur + n, limit, k + 1);
        SucceedsExactlyWhen(w, cur + n, limit, k + 1, end);
      } else {
        OrEnds(w, cur, limit, k);
      }
    }
  }

  lemma ReplyKinds(w: World, limit: nat, k: nat)
    ensures Retries(w, limit, k) <==> w.device(k).RxFails? && limit > MIN_READ
    ensures Fatal(w.device(k)) <==> !w.device(k).RxFails? && !w.device(k).Saved?
  {
  }

  lemma NoReplies(device: nat -> Reply, k: nat)
    ensures NoneFatal(Replies(device, k, k)) && ReadFails(Replies(device, k, k)) == 0
  {
  }

  function LimitAfter(limit: nat, failures: nat): nat
    decreases failures
  {
    if failures == 0 then limit else LimitAfter(limit / 2, failures - 1)
  }

  /** A request that asks for what is left or for the limit, halved by each failure before it. */
  predicate AsksFully(requests: seq<Request>, i: nat, end: nat, limit: nat)
    requires i < |requests|
  {
    requests[i].addr <= end &&
    requests[i].len == Min(end - requests[i].addr, LimitAfter(limit, Failures(requests[..i])))
  }

  lemma AsksFullyFirst(requests: seq<Request>, end: nat, limit: nat)
    requires |requests| > 0 && requests[0].addr <= end && requests[0].len == Min(end - requests[0].addr, limit)
    ensures AsksFully(requests, 0, end, limit)
  {
    assert requests[..0] == [];
  }

  lemma AsksFullyNext(q: Request, rest: seq<Request>, i: nat, end: nat, limit: nat, next: nat)
    requires 0 < i <= |rest| && AsksFully(rest, i - 1, end, next) && next == if q.answered then limit else limit / 2
    ensures AsksFully([q] + rest, i, end, limit)
  {
    var whole := [q] + rest;
    assert whole[..i] == [q] + rest[..i - 1] && whole[i] == rest[i - 1];
    Cons(q, rest[..i - 1]);
  }

  /** Every request of a region asks fully. */
  lemma {:induction false} RequestsAskFully(w: World, cur: nat, limit: nat, k: nat, i: nat)
    requires w.Readable() && cur <= w.r.len && Limit(limit) && i < |Read(w, cur, limit, k).requests|
    ensures AsksFully(Read(w, cur, limit, k).requests, i, w.r.base + w.r.len, limit)
    decreases w.r.len - cur, limit
  {
    hide *;
    var end, requests := w.r.base + w.r.len, Read(w, cur, limit, k).requests;
    if cur == w.r.len {
      ReadDone(w, limit, k);
      assert false;
    } else {
      var n := Chunk(w, cur, limit);
      assert n == Min(end - (w.r.base + cur), limit);
      if Retries(w, limit, k) {
        RetryHalves(w, limit, k);
        AfterFailure(w, cur, limit, k);
        var rest := Read(w, cur, limit / 2, k + 1);
        AskedIs(w.r.base + cur, n, false, [], rest);
        if i > 0 {
          RequestsAskFully(w, cur, limit / 2, k + 1, i - 1);
          AsksFullyNext(Request(w.r.base + cur, n, false), rest.requests, i, end, limit, limit / 2);
        } else {
          AsksFullyFirst(requests, end, limit);
        }
      } else if w.device(k).Saved? {
        AfterSave(w, cur, limit, k);
        var rest := Read(w, cur + n, limit, k + 1);
        AskedIs(w.r.base + cur, n, true, Memory(w.mem, w.r.base + cur, Min(w.device(k).bytes, n)), rest);
        if i > 0 {
          RequestsAskFully(w, cur + n, limit, k + 1, i - 1);
          AsksFullyNext(Request(w.r.base + cur, n, true), rest.requests, i, end, limit, limit);
        } else {
          AsksFullyFirst(requests, end, limit);
        }
      } else {
        OrEnds(w, cur, limit, k);
        AsksFullyFirst(requests, end, limit);
      }
    }
  }

  /** What the saves keep of the answers, request by request. */
  function Kept(mem: nat -> byte, requests: seq<Request>, replies: seq<Reply>): seq<byte>
    decreases |requests|
  {
    if |requests| == 0 || |replies| == 0 then []
    else
      (if replies[0].Saved? then Memory(mem, requests[0].addr, Min(replies[0].bytes, requests[0].len)) else []) +
      Kept(mem, requests[1..], replies[1..])
  }

  lemma KeptCons(mem: nat -> byte, q: Request, rest: seq<Request>, a: Reply, replies: seq<Reply>)
    ensures Kept(mem, [q] + rest, [a] + replies)
         == (if a.Saved? then Memory(mem, q.addr, Min(a.bytes, q.len)) else []) + Kept(mem, rest, replies)
  {
    hide Memory;
    assert ([q] + rest)[1..] == rest && ([a] + replies)[1..] == replies;
  }

  /** The file is what was saved of each answer, whole or short, in order. */
  lemma {:induction false} FileIsKept(w: World, cur: nat, limit: nat, k: nat, end: nat)
    requires w.Readable() && cur <= w.r.len && Limit(limit) && k <= end == Read(w, cur, limit, k).calls
    ensures var out := Read(w, cur, limit, k);
            out.file == Kept(w.mem, out.requests, Replies(w.device, k, end))
    decreases w.r.len - cur, limit
  {
    hide *;
    if cur == w.r.len {
      ReadDone(w, limit, k);
      KeptNone(w.mem, Replies(w.device, k, end));
    } else {
      CallsGrow(w, cur, limit, k);
      RepliesCons(w.device, k, end);
      var n, later := Chunk(w, cur, limit), Replies(w.device, k + 1, end);
      ReplyKinds(w, limit, k);
      if Retries(w, limit, k) {
        RetryHalves(w, limit, k);
        AfterFailure(w, cur, limit, k);
        var rest := Read(w, cur, limit / 2, k + 1);
        AskedIs(w.r.base + cur, n, false, [], rest);
        CallsGrow(w, cur, limit / 2, k + 1);
        FileIsKept(w, cur, limit / 2, k + 1, end);
        KeptCons(w.mem, Request(w.r.base + cur, n, false), rest.requests, w.device(k), later);
      } else if w.device(k).Saved? {
        AfterSave(w, cur, limit, k);
        var rest := Read(w, cur + n, limit, k + 1);
        AskedIs(w.r.base + cur, n, true, Memory(w.mem, w.r.base + cur, Min(w.device(k).bytes, n)), rest);
        CallsGrow(w, cur + n, limit, k + 1);
        FileIsKept(w, cur + n, limit, k + 1, end);
        KeptCons(w.mem, Request(w.r.base + cur, n, true), rest.requests, w.device(k), later);
      } else {
        OrEnds(w, cur, limit, k);
        KeptNone(w.mem, Replies(w.device, k, end));
        KeptOne(w.mem, Request(w.r.base + cur, n, w.device(k).SaveFails?), w.device(k), later);
      }
    }
  }

  lemma KeptNone(mem: nat -> byte, replies: seq<Reply>)
    ensures Kept(mem, [], replies) == []
  {
  }

  lemma KeptOne(mem: nat -> byte, q: Request, a: Reply, later: seq<Reply>)
    requires !a.Saved?
    ensures Kept(mem, [q], [a] + later) == []
  {
    assert [q] == [q] + [];
    KeptCons(mem, q, [], a, later);
  }

  lemma AskedIs(addr: nat, n: nat, answered: bool, bytes: seq<byte>, rest: Outcome)
    ensures var out := Asked(addr, n, answered, bytes, rest);
            out.requests == [Request(addr, n, answered)] + rest.requests && out.file == bytes + rest.file &&
            out.calls == rest.calls
  {
  }

  // ---------- The memory table ----------

  /** `is_valid_memory_table`: an entry has 64 bytes in 64-bit mode and 52 otherwise. */
  predicate ValidTable(wide: bool, size: nat) {
    size % (if wide then 64 else 52) == 0
  }

  function EntryCount(wide: bool, size: nat): nat {
    size / (if wide then 64 else 52)
  }

  /** The table is read only if it and its 64-bit form fit the two buffers. */
  predicate TableFits(wide: bool, size: nat) {
    size <= RAW_BUF && (wide || EntryCount(wide, size) * 64 <= RAW_BUF)
  }

  /** A valid table that passes both checks is all entries, and all of them fit the converted buffer. */
  lemma EntriesFit(wide: bool, size: nat)
    requires ValidTable(wide, size)
    ensures EntryCount(wide, size) * (if wide then 64 else 52) == size
    ensures TableFits(wide, size) <==> size <= RAW_BUF && EntryCount(wide, size) <= 2048
  {
  }

  // ---------- All regions ----------

  datatype Dump = Dump(ok: bool, limit: nat, calls: nat, requests: seq<Request>, files: seq<seq<byte>>)

  predicate AllReadable(wide: bool, rs: seq<Region>) {
    forall r | r in rs :: r.len < WORD && r.base + r.len <= Space(wide)
  }

  /** The table's regions one after the other, until one fails. The limit stays where it has fallen. */
  function ReadAll(wide: bool, rs: seq<Region>, limit: nat, mem: nat -> byte, device: nat -> Reply, k: nat): Dump
    requires AllReadable(wide, rs) && Limit(limit)
    decreases |rs|
  {
    if |rs| == 0 then Dump(true, limit, k, [], [])
    else
      assert rs[0] in rs;
      var w := World(wide, rs[0], mem, device);
      var out := Read(w, 0, limit, k);
      FailuresHalveTheLimit(w, 0, limit, k);
      if !out.ok then Dump(false, out.limit, out.calls, out.requests, [out.file])
      else
        var rest := ReadAll(wide, rs[1..], out.limit, mem, device, out.calls);
        rest.(requests := out.requests + rest.requests, files := [out.file] + rest.files)
  }

  lemma {:induction false} FailuresAppend(a: seq<Request>, b: seq<Request>)
    ensures Failures(a + b) == Failures(a) + Failures(b)
  {
    if |a| == 0 {
      assert a + b == b;
    } else {
      assert (a + b)[1..] == a[1..] + b;
      FailuresAppend(a[1..], b);
    }
  }

  lemma {:induction false} Pow2Adds(a: nat, b: nat)
    ensures Pow2(a + b) == Pow2(a) * Pow2(b)
  {
    if a > 0 {
      Pow2Adds(a - 1, b);
      Associates(2, Pow2(a - 1), Pow2(b));
    }
  }

  /** Every request of a dump asks for memory of one of the announced regions. */
  lemma {:induction false} DumpStaysInside(
      wide: bool, rs: seq<Region>, limit: nat, mem: nat -> byte, device: nat -> Reply, k: nat)
    requires AllReadable(wide, rs) && Limit(limit)
    ensures forall q | q in ReadAll(wide, rs, limit, mem, device, k).requests ::
              exists r | r in rs :: 0 < q.len <= RAW_BUF && r.base <= q.addr && q.addr + q.len <= r.base + r.len
    decreases |rs|
  {
    hide Read, Limit;
    if |rs| > 0 {
      assert rs[0] in rs;
      var w := World(wide, rs[0], mem, device);
      FailuresHalveTheLimit(w, 0, limit, k);
      RequestsStayInside(w, 0, limit, k);
      var out := Read(w, 0, limit, k);
      if out.ok { DumpStaysInside(wide, rs[1..], out.limit, mem, device, out.calls); }
    }
  }

  /** A successful dump with complete saves writes every region's memory. */
  lemma {:induction false} DumpIsMemory(
      wide: bool, rs: seq<Region>, limit: nat, mem: nat -> byte, device: nat -> Reply, k: nat)
    requires AllReadable(wide, rs) && Limit(limit) && CompleteSaves(device)
    requires ReadAll(wide, rs, limit, mem, device, k).ok
    ensures var files := ReadAll(wide, rs, limit, mem, device, k).files;
            |files| == |rs| && forall i | 0 <= i < |rs| :: files[i] == Memory(mem, rs[i].base, rs[i].len)
    decreases |rs|
  {
    hide Read, Limit, CompleteSaves, Memory;
    if |rs| > 0 {
      assert rs[0] in rs;
      var w := World(wide, rs[0], mem, device);
      var out := Read(w, 0, limit, k);
      FailuresHalveTheLimit(w, 0, limit, k);
      FileIsMemory(w, 0, limit, k);
      DumpIsMemory(wide, rs[1..], out.limit, mem, device, out.calls);
    }
  }

  lemma HalvedTwice(limit: nat, mid: nat, f: nat, low: nat, g: nat, ok: bool)
    requires mid * Pow2(f) == limit && (ok ==> low * Pow2(g) == mid) && MIN_READ * Pow2(g) <= 2 * mid
    ensures (ok ==> low * Pow2(f + g) == limit) && MIN_READ * Pow2(f + g) <= 2 * limit
  {
    Pow2Adds(f, g);
    var p, q := Pow2(f), Pow2(g);
    hide Pow2;
    Regroup(MIN_READ, p, q);
    Regroup(low, p, q);
    Regroup(2, p, mid);
    Grow(MIN_READ * q, 2 * mid, p);
  }

  lemma Associates(a: nat, p: nat, q: nat)
    ensures (a * p) * q == a * (p * q)
  {
  }

  lemma Regroup(a: nat, p: nat, q: nat)
    ensures a * (p * q) == (a * q) * p && p * q == q * p
  {
  }

  lemma Grow(a: nat, b: nat, p: nat)
    requires a <= b
    ensures a * p <= b * p
  {
  }

  /** Over all regions together no more than three failed reads are tolerated. */
  lemma {:induction false} DumpHalves(
      wide: bool, rs: seq<Region>, limit: nat, mem: nat -> byte, device: nat -> Reply, k: nat)
    requires AllReadable(wide, rs) && Limit(limit)
    ensures var d := ReadAll(wide, rs, limit, mem, device, k);
            Halved(limit, Outcome(d.ok, d.limit, d.calls, d.requests, []))
    decreases |rs|
  {
    if |rs| == 0 {
      hide Limit;
      NoFailure(limit, k);
    } else {
      hide *;
      var w := World(wide, rs[0], mem, device);
      ReadAllStep(wide, rs, limit, mem, device, k);
      var d, out := ReadAll(wide, rs, limit, mem, device, k), Read(w, 0, limit, k);
      FailuresHalveTheLimit(w, 0, limit, k);
      if out.ok {
        var rest := ReadAll(wide, rs[1..], out.limit, mem, device, out.calls);
        DumpHalves(wide, rs[1..], out.limit, mem, device, out.calls);
        FailuresAppend(out.requests, rest.requests);
        RegionAdds(out, rest);
        HalvedBoth(limit, out, rest, d);
      } else {
        RegionAdds(out, NO_DUMP);
        HalvedSame(limit, out, d);
      }
    }
  }

  lemma RegionAdds(out: Outcome, rest: Dump)
    ensures var d := WithRegion(out, rest);
            d.ok == (out.ok && rest.ok) && d.limit == (if out.ok then rest.limit else out.limit) &&
            d.requests == if out.ok then out.requests + rest.requests else out.requests
  {
  }

  lemma HalvedSame(limit: nat, out: Outcome, d: Dump)
    requires Halved(limit, out) && d.ok == out.ok && d.limit == out.limit && d.requests == out.requests
    ensures Halved(limit, Outcome(d.ok, d.limit, d.calls, d.requests, []))
  {
    hide Limit, Pow2, Failures;
  }

  lemma HalvedBoth(limit: nat, out: Outcome, rest: Dump, d: Dump)
    requires Halved(limit, out) && Halved(out.limit, Outcome(rest.ok, rest.limit, rest.calls, rest.requests, []))
    requires out.ok && d.ok == rest.ok && d.limit == rest.limit
    requires Failures(d.requests) == Failures(out.requests) + Failures(rest.requests)
    ensures Halved(limit, Outcome(d.ok, d.limit, d.calls, d.requests, []))
  {
    hide Limit, Pow2, Failures;
    HalvedTwice(limit, out.limit, Failures(out.requests), rest.limit, Failures(rest.requests), rest.ok);
  }

  lemma {:induction false} RepliesJoin(device: nat -> Reply, a: nat, b: nat, c: nat)
    requires a <= b <= c
    ensures Replies(device, a, c) == Replies(device, a, b) + Replies(device, b, c)
    ensures ReadFails(Replies(device, a, c)) == ReadFails(Replies(device, a, b)) + ReadFails(Replies(device, b, c))
    ensures NoneFatal(Replies(device, a, c)) <==> NoneFatal(Replies(device, a, b)) && NoneFatal(Replies(device, b, c))
    decreases b - a
  {
    if a == b {
      NoReplies(device, a);
      hide ReadFails, NoneFatal;
      assert Replies(device, a, b) == [];
      assert [] + Replies(device, b, c) == Replies(device, b, c);
    } else {
      hide *;
      RepliesJoin(device, a + 1, b, c);
      RepliesCons(device, a, b);
      RepliesCons(device, a, c);
      FailsCons(device(a), Replies(device, a + 1, b));
      FailsCons(device(a), Replies(device, a + 1, c));
      assert [device(a)] + (Replies(device, a + 1, b) + Replies(device, b, c))
          == [device(a)] + Replies(device, a + 1, b) + Replies(device, b, c);
    }
  }

  /** The whole dump succeeds exactly when no send or save fails and no more reads fail than can be tolerated. */
  lemma {:induction false} DumpSucceedsExactlyWhen(
      wide: bool, rs: seq<Region>, limit: nat, mem: nat -> byte, device: nat -> Reply, k: nat, end: nat)
    requires AllReadable(wide, rs) && Limit(limit) && end == ReadAll(wide, rs, limit, mem, device, k).calls
    ensures k <= end
    ensures var replies, d := Replies(device, k, end), ReadAll(wide, rs, limit, mem, device, k);
            d.ok <==> NoneFatal(replies) && ReadFails(replies) <= Halvings(limit)
    decreases |rs|
  {
    if |rs| == 0 {
      NoReplies(device, k);
    } else {
      hide *;
      var w := World(wide, rs[0], mem, device);
      ReadAllStep(wide, rs, limit, mem, device, k);
      var out := Read(w, 0, limit, k);
      CallsGrow(w, 0, limit, k);
      SucceedsExactlyWhen(w, 0, limit, k, out.calls);
      if out.ok {
        var rest := ReadAll(wide, rs[1..], out.limit, mem, device, out.calls);
        RegionCalls(out, rest);
        DumpSucceedsExactlyWhen(wide, rs[1..], out.limit, mem, device, out.calls, end);
        RepliesJoin(device, k, out.calls, end);
      } else {
        RegionCalls(out, NO_DUMP);
      }
    }
  }

  lemma RegionCalls(out: Outcome, rest: Dump)
    ensures var d := WithRegion(out, rest);
            d.ok == (out.ok && rest.ok) && d.calls == (if out.ok then rest.calls else out.calls)
  {
  }

  /** A dump tolerates at most three failed reads over all its regions; the fourth one ends it. */
  lemma AtMostThreeTolerated(
      wide: bool, rs: seq<Region>, limit: nat, mem: nat -> byte, device: nat -> Reply, k: nat)
    requires AllReadable(wide, rs) && Limit(limit)
    ensures var d := ReadAll(wide, rs, limit, mem, device, k);
            Failures(d.requests) <= 4 && (d.ok ==> Failures(d.requests) <= 3)
  {
    hide ReadAll, Halved, Pow2, Failures;
    var d := ReadAll(wide, rs, limit, mem, device, k);
    DumpHalves(wide, rs, limit, mem, device, k);
    HalvedFewTimes(limit, Outcome(d.ok, d.limit, d.calls, d.requests, []));
  }

  // ---------- sahara_data ----------

  class Session {
    var maxRead: nat
    var calls: nat
    var requests: seq<Request>

    constructor ()
      ensures maxRead == RAW_BUF && Limit(maxRead) && calls == 0 && requests == []
    {
      maxRead, calls, requests := RAW_BUF, 0, [];
    }

    /** State Q_SAHARA_WAIT_EIGHT: one file per entry of the memory table. */
    method ReadDump(wide: bool, rs: seq<Region>, mem: nat -> byte, device: nat -> Reply)
      returns (ok: bool, files: seq<seq<byte>>)
      requires AllReadable(wide, rs) && Limit(maxRead)
      modifies this
      ensures Limit(maxRead)
      ensures var d := ReadAll(wide, rs, old(maxRead), mem, device, old(calls));
              ok == d.ok && files == d.files && maxRead == d.limit && calls == d.calls &&
              requests == old(requests) + d.requests
    {
      hide *;
      files := [];
      ghost var whole := ReadAll(wide, rs, maxRead, mem, device, calls);
      var i := 0;
      assert rs[0..] == rs;
      DumpStarts(whole, requests);
      while i < |rs|
        invariant i <= |rs| && Limit(maxRead) && AllReadable(wide, rs[i..])
        invariant DumpContinues(whole, old(requests), requests, files, ReadAll(wide, rs[i..], maxRead, mem, device, calls))
      {
        var w := World(wide, rs[i], mem, device);
        assert rs[i..][0] == rs[i] && rs[i..][1..] == rs[i + 1..];
        ReadAllStep(wide, rs[i..], maxRead, mem, device, calls);
        ghost var out, before, had := Read(w, 0, maxRead, calls), requests, files;
        var read, file := ReadRegion(w);
        files := files + [file];
        if !read {
          DumpFails(whole, old(requests), before, had, out);
          return false, files;
        }
        DumpStep(whole, old(requests), before, had, out, ReadAll(wide, rs[i + 1..], maxRead, mem, device, calls));
        i := i + 1;
      }
      DumpDone(whole, old(requests), requests, files, wide, rs[i..], maxRead, mem, device, calls);
      ok := true;
    }

    /** The inner loop, which ends because bytes left and chunk limit decrease together. */
    method ReadRegion(w: World) returns (ok: bool, file: seq<byte>)
      requires w.Readable() && Limit(maxRead)
      modifies this
      ensures var out := Read(w, 0, old(maxRead), old(calls));
              ok == out.ok && file == out.file && maxRead == out.limit && calls == out.calls &&
              requests == old(requests) + out.requests
    {
      hide Memory, WireAddr, ChunkLen, Limit, Read, Continues;
      ReadStarts(w, maxRead, calls, requests);
      file := [];
      ghost var whole := Read(w, 0, maxRead, calls);
      var cur := 0;
      while cur < w.r.len
        invariant cur <= w.r.len && Limit(maxRead)
        invariant Continues(whole, old(requests), requests, file, Read(w, cur, maxRead, calls))
        decreases w.r.len - cur, maxRead
      {
        ghost var k, limit, n := calls, maxRead, Chunk(w, cur, maxRead);
        var len, addr := ChunkLen(w.r.len - cur, maxRead), WireAddr(w.wide, w.r.base + cur);
        var reply := w.device(calls);
        if !Retries(w, limit, k) && !reply.Saved? {
          OrEnds(w, cur, limit, k);
          ContinuesEnds(whole, old(requests), requests, file, Read(w, cur, limit, k));
        }
        calls := calls + 1;
        if reply.TxFails? { return false, file; }
        requests := requests + [Request(addr, len, !reply.RxFails?)];
        if reply.RxFails? {
          if maxRead > 16 * 1024 {
            AfterFailure(w, cur, limit, k);
            ContinuesAsked(whole, old(requests), requests, file, addr, n, false, [], Read(w, cur, limit / 2, k + 1));
            maxRead := maxRead / 2;
            continue;
          }
          return false, file;
        }
        if reply.SaveFails? { return false, file; }
        var saved := Memory(w.mem, addr, Min(reply.bytes, len));
        AfterSave(w, cur, limit, k);
        ContinuesAsked(whole, old(requests), requests, file, addr, n, true, saved, Read(w, cur + n, limit, k + 1));
        cur := cur + len;
        file := file + saved;
      }
      ReadStops(w, cur, maxRead, calls, whole, old(requests), requests, file);
      ok := true;
    }
  }

  /** The loop over the regions has done the part of `whole` before `rest`. */
  ghost predicate DumpContinues(
      whole: Dump, before: seq<Request>, requests: seq<Request>, files: seq<seq<byte>>, rest: Dump)
  {
    whole.ok == rest.ok && whole.limit == rest.limit && whole.calls == rest.calls &&
    before + whole.requests == requests + rest.requests && whole.files == files + rest.files
  }

  const NO_DUMP := Dump(false, 0, 0, [], [])

  /** A dump with its first region in front of the others. */
  function WithRegion(out: Outcome, rest: Dump): Dump {
    if out.ok then rest.(requests := out.requests + rest.requests, files := [out.file] + rest.files)
    else Dump(false, out.limit, out.calls, out.requests, [out.file])
  }

  lemma ReadAllStep(wide: bool, rs: seq<Region>, limit: nat, mem: nat -> byte, device: nat -> Reply, k: nat)
    requires AllReadable(wide, rs) && Limit(limit) && |rs| > 0
    ensures World(wide, rs[0], mem, device).Readable() && AllReadable(wide, rs[1..])
    ensures var out := Read(World(wide, rs[0], mem, device), 0, limit, k);
            Limit(out.limit) &&
            ReadAll(wide, rs, limit, mem, device, k) == WithRegion(
              out, if out.ok then ReadAll(wide, rs[1..], out.limit, mem, device, out.calls) else NO_DUMP)
  {
    hide Read, Limit, Halved;
    assert rs[0] in rs;
    FailuresHalveTheLimit(World(wide, rs[0], mem, device), 0, limit, k);
    ReadKeepsLimit(World(wide, rs[0], mem, device), limit, k);
  }

  lemma DumpStarts(whole: Dump, requests: seq<Request>)
    ensures DumpContinues(whole, requests, requests, [], whole)
  {
    assert [] + whole.files == whole.files;
  }

  lemma DumpStep(
      whole: Dump, before: seq<Request>, requests: seq<Request>, files: seq<seq<byte>>, out: Outcome, rest: Dump)
    requires out.ok && DumpContinues(whole, before, requests, files, WithRegion(out, rest))
    ensures DumpContinues(whole, before, requests + out.requests, files + [out.file], rest)
  {
    assert requests + (out.requests + rest.requests) == (requests + out.requests) + rest.requests;
    assert files + ([out.file] + rest.files) == (files + [out.file]) + rest.files;
  }

  lemma DumpFails(whole: Dump, before: seq<Request>, requests: seq<Request>, files: seq<seq<byte>>, out: Outcome)
    requires !out.ok && DumpContinues(whole, before, requests, files, WithRegion(out, NO_DUMP))
    ensures !whole.ok && whole.limit == out.limit && whole.calls == out.calls
    ensures before + whole.requests == requests + out.requests && whole.files == files + [out.file]
  {
  }

  lemma DumpDone(
      whole: Dump, before: seq<Request>, requests: seq<Request>, files: seq<seq<byte>>,
      wide: bool, rs: seq<Region>, limit: nat, mem: nat -> byte, device: nat -> Reply, k: nat)
    requires AllReadable(wide, rs) && Limit(limit) && |rs| == 0
    requires DumpContinues(whole, before, requests, files, ReadAll(wide, rs, limit, mem, device, k))
    ensures whole.ok && whole.limit == limit && whole.calls == k
    ensures before + whole.requests == requests && whole.files == files
  {
  }

  lemma ReadStarts(w: World, limit: nat, k: nat, requests: seq<Request>)
    requires w.Readable() && Limit(limit)
    ensures Continues(Read(w, 0, limit, k), requests, requests, [], Read(w, 0, limit, k))
  {
    hide Read;
    assert [] + Read(w, 0, limit, k).file == Read(w, 0, limit, k).file;
  }

  lemma ReadStops(
      w: World, cur: nat, limit: nat, k: nat,
      whole: Outcome, before: seq<Request>, requests: seq<Request>, file: seq<byte>)
    requires w.Readable() && cur == w.r.len && Limit(limit)
    requires Continues(whole, before, requests, file, Read(w, cur, limit, k))
    ensures whole.ok && whole.limit == limit && whole.calls == k
    ensures before + whole.requests == requests && whole.file == file
  {
  }

  lemma ContinuesAsked(
      whole: Outcome, before: seq<Request>, requests: seq<Request>, file: seq<byte>,
      addr: nat, n: nat, answered: bool, bytes: seq<byte>, rest: Outcome)
    requires |requests| > 0 && requests[|requests| - 1] == Request(addr, n, answered)
    requires Continues(whole, before, requests[..|requests| - 1], file, Asked(addr, n, answered, bytes, rest))
    ensures Continues(whole, before, requests, file + bytes, rest)
    ensures bytes == [] ==> Continues(whole, before, requests, file, rest)
  {
    var init := requests[..|requests| - 1];
    assert init + ([Request(addr, n, answered)] + rest.requests) == requests + rest.requests;
    assert file + (bytes + rest.file) == (file + bytes) + rest.file;
    assert bytes == [] ==> file + bytes == file;
  }

  lemma ContinuesEnds(
      whole: Outcome, before: seq<Request>, requests: seq<Request>, file: seq<byte>, rest: Outcome)
    requires Continues(whole, before, requests, file, rest) && rest.file == []
    ensures whole.ok == rest.ok && whole.limit == rest.limit && whole.calls == rest.calls && whole.file == file
    ensures before + whole.requests == requests + rest.requests
  {
  }

  /** The loop has done the part of `whole` before `rest`. */
  ghost predicate Continues(
      whole: Outcome, before: seq<Request>, requests: seq<Request>, file: seq<byte>, rest: Outcome)
  {
    whole.ok == rest.ok && whole.limit == rest.limit && whole.calls == rest.calls &&
    before + whole.requests == requests + rest.requests && whole.file == file + rest.file
  }
}
