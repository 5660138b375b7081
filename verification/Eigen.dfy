/**
 The memory dump of eigen.c: `GetDumpDataUsb` reads one region in frames whose CRC decides, and the
 region loop of `enigen_catch_dump` pads the gaps, so that the file is a flat image.
 */
module Eigen {
  import opened Bytes
  import opened ReflectedCrc
  import EigenCrc

  const WORD: nat := 0x1_0000_0000
  const MAX_ASK: nat := 512 * 20
  const MAX_FAILS: nat := 16

  datatype Region = Region(addr: nat, len: nat) {
    predicate Valid() {
      addr < WORD && len < WORD
    }
  }

  /** One pass of the loop: sending or waiting failed, or the message buffer holds a frame. */
  datatype Event = NoAnswer | Frame(message: seq<byte>)

  // ---------- Frames ----------

  /** The header has eight bytes, the last two of which give the payload length. */
  function Length(m: seq<byte>): (n: int)
    requires |m| >= 8
    ensures 0 <= n < 0x1_0000
  {
    Le16(m[6], m[7])
  }

  /** The frame and its check sequence lie inside the 65535-byte message buffer. */
  predicate Whole(m: seq<byte>) {
    8 <= |m| <= 65535 && 12 + Length(m) <= |m|
  }

  function Payload(m: seq<byte>): (p: seq<byte>)
    requires Whole(m)
    ensures |p| == Length(m)
  {
    m[8..8 + Length(m)]
  }

  function StoredCrc(m: seq<byte>): bv16
    requires Whole(m)
  {
    Joined(m[8 + Length(m)], m[9 + Length(m)])
  }

  predicate CrcOk(m: seq<byte>)
    requires Whole(m)
  {
    EigenCrc.Crc(0xFFFF, m[..8 + Length(m)]) == StoredCrc(m)
  }

  predicate AllWhole(events: seq<Event>) {
    forall e | e in events && e.Frame? :: Whole(e.message)
  }

  predicate Accepts(e: Event)
    requires e.Frame? ==> Whole(e.message)
  {
    e.Frame? && CrcOk(e.message)
  }

  // ---------- One region ----------

  /** `nReadLen`, the two fields of the request, `nReadTime`, and the file. */
  datatype Get = Get(read: nat, addr: nat, ask: nat, fails: nat, file: seq<byte>)

  /** The loop goes on while bytes are missing and fewer than sixteen frames in a row failed. */
  predicate Going(total: nat, g: Get) {
    g.read < total && total > 0 && g.fails < MAX_FAILS
  }

  function Step(total: nat, g: Get, e: Event): Get
    requires e.Frame? ==> Whole(e.message)
  {
    if e.NoAnswer? then g
    else if CrcOk(e.message) then
      var read := (g.read + Length(e.message)) % WORD;
      var left := (total - read) % WORD;
      Get(read, (g.addr + Length(e.message)) % WORD, if left < MAX_ASK then left else g.ask, 0,
          g.file + Payload(e.message))
    else g.(fails := g.fails + 1)
  }

  datatype Status = Waiting | Finished | Failed

  /** The loop over the events there are; without an event it is still waiting. */
  function Loop(total: nat, g: Get, events: seq<Event>): (Status, Get, seq<Event>)
    requires AllWhole(events)
    decreases |events|
  {
    if !Going(total, g) then (if g.fails >= MAX_FAILS then Failed else Finished, g, events)
    else if |events| == 0 then (Waiting, g, events)
    else
      assert events[0] in events;
      Loop(total, Step(total, g, events[0]), events[1..])
  }

  function Start(r: Region, file: seq<byte>): Get {
    Get(0, r.addr, MAX_ASK, 0, file)
  }

  // ---------- Frames as the device builds them ----------

  /** What the check sequence covers: six bytes of header, the length, and the payload. */
  function CoveredBytes(head: seq<byte>, payload: seq<byte>): seq<byte>
    requires |payload| < 0x1_0000
  {
    head + Le16Bytes(|payload|) + payload
  }

  function CheckOf(head: seq<byte>, payload: seq<byte>): (crc: seq<byte>)
    requires |payload| < 0x1_0000
    ensures |crc| == 2
  {
    WireBytes(EigenCrc.Crc(0xFFFF, CoveredBytes(head, payload)))
  }

  /** The parts of a message; at least two bytes follow the check sequence. */
  predicate Parts(head: seq<byte>, payload: seq<byte>, crc: seq<byte>, tail: seq<byte>) {
    |head| == 6 && |crc| == 2 && |tail| >= 2 && 10 + |payload| + |tail| <= 65535
  }

  function Built(head: seq<byte>, payload: seq<byte>, crc: seq<byte>, tail: seq<byte>): seq<byte>
    requires Parts(head, payload, crc, tail)
  {
    CoveredBytes(head, payload) + crc + tail
  }

  lemma BuiltReadsBack(head: seq<byte>, payload: seq<byte>, crc: seq<byte>, tail: seq<byte>)
    requires Parts(head, payload, crc, tail)
    ensures var m := Built(head, payload, crc, tail);
            Whole(m) && Length(m) == |payload| && Payload(m) == payload &&
            m[..8 + |payload|] == CoveredBytes(head, payload) &&
            m[8 + |payload|] == crc[0] && m[9 + |payload|] == crc[1]
  {
    hide Le16;
    var m, len := Built(head, payload, crc, tail), Le16Bytes(|payload|);
    assert m[6] == len[0] && m[7] == len[1];
    assert m[8..8 + |payload|] == payload;
    assert m[..8 + |payload|] == CoveredBytes(head, payload);
  }

  /**
   A frame is taken, with exactly its payload, when it ends in the check sequence of what precedes it; with
   any other two bytes there it adds nothing, does not advance, and counts as a failure.
   */
  lemma FrameDecides(total: nat, g: Get, head: seq<byte>, payload: seq<byte>, crc: seq<byte>, tail: seq<byte>)
    requires Parts(head, payload, crc, tail)
    ensures Whole(Built(head, payload, crc, tail))
    ensures var h := Step(total, g, Frame(Built(head, payload, crc, tail)));
            if crc == CheckOf(head, payload) then
              h.file == g.file + payload && h.read == (g.read + |payload|) % WORD &&
              h.addr == (g.addr + |payload|) % WORD && h.fails == 0 &&
              h.ask == var left := (total - h.read) % WORD; if left < MAX_ASK then left else g.ask
            else h == g.(fails := g.fails + 1)
  {
    var m := Built(head, payload, crc, tail);
    BuiltReadsBack(head, payload, crc, tail);
    CrcOkIs(m, head, payload, crc);
    hide CrcOk, Length, Payload, CheckOf, Built;
  }

  lemma CrcOkIs(m: seq<byte>, head: seq<byte>, payload: seq<byte>, crc: seq<byte>)
    requires Whole(m) && |payload| < 0x1_0000 && |crc| == 2 && Length(m) == |payload|
    requires m[..8 + |payload|] == CoveredBytes(head, payload)
    requires m[8 + |payload|] == crc[0] && m[9 + |payload|] == crc[1]
    ensures CrcOk(m) <==> crc == CheckOf(head, payload)
  {
    hide WireBytes, EigenCrc.Crc, Length, Joined, CoveredBytes;
    assert crc == [crc[0], crc[1]];
    JoinedIsWire(crc[0], crc[1], EigenCrc.Crc(0xFFFF, CoveredBytes(head, payload)));
  }

  /** A frame with up to two adjacent damaged bytes in what its check sequence covers is refused. */
  lemma DamagedFrameIsRefused(
      total: nat, g: Get, sentHead: seq<byte>, sent: seq<byte>, head: seq<byte>, payload: seq<byte>, tail: seq<byte>,
      front: seq<byte>, a: byte, b: byte, c: byte, d: byte, back: seq<byte>)
    requires |sent| == |payload| < 0x1_0000 && Parts(head, payload, CheckOf(sentHead, sent), tail)
    requires CoveredBytes(sentHead, sent) == front + [a, b] + back
    requires CoveredBytes(head, payload) == front + [c, d] + back && (a, b) != (c, d)
    ensures var m := Built(head, payload, CheckOf(sentHead, sent), tail);
            Whole(m) && Step(total, g, Frame(m)) == g.(fails := g.fails + 1)
  {
    hide Register, WireBytes, CoveredBytes;
    BurstChanges(EigenCrc.POLY, 0xFFFF, front, a, b, c, d, back);
    WireInjective(EigenCrc.Crc(0xFFFF, CoveredBytes(sentHead, sent)), EigenCrc.Crc(0xFFFF, CoveredBytes(head, payload)));
    FrameDecides(total, g, head, payload, CheckOf(sentHead, sent), tail);
  }

  lemma WireInjective(r: bv16, s: bv16)
    requires r != s
    ensures WireBytes(r) != WireBytes(s)
  {
    hide Joined, Lo, Hi;
    JoinedIsWire(Lo(r), Hi(r), r);
    JoinedIsWire(Lo(r), Hi(r), s);
  }

  // ---------- An honest device ----------

  /** Every accepted frame carries the memory that was asked for. */
  predicate Honest(mem: nat -> byte, total: nat, g: Get, events: seq<Event>)
    requires AllWhole(events)
    decreases |events|
  {
    Going(total, g) && |events| > 0 ==>
      (assert events[0] in events;
       (Accepts(events[0]) ==> Payload(events[0].message) == Memory(mem, g.addr, g.ask)) &&
       Honest(mem, total, Step(total, g, events[0]), events[1..]))
  }

  /** Where the loop stands in a region of at least one full request. */
  predicate Tracks(mem: nat -> byte, r: Region, file: seq<byte>, g: Get) {
    g.read <= r.len && g.addr == (r.addr + g.read) % WORD &&
    g.ask == (if r.len - g.read < MAX_ASK then r.len - g.read else MAX_ASK) &&
    g.file == file + Memory(mem, r.addr, g.read)
  }

  predicate Addressable(r: Region) {
    r.addr + r.len <= WORD && r.len < WORD
  }

  /** A frame whose CRC fails adds no bytes and does not advance the address. */
  lemma BadFrameChangesNothing(total: nat, g: Get, e: Event)
    requires e.Frame? ==> Whole(e.message)
    requires !Accepts(e)
    ensures var h := Step(total, g, e); h.file == g.file && h.addr == g.addr && h.read == g.read && h.ask == g.ask
  {
  }

  /** Inside an addressable region the 32-bit counters do not wrap. */
  lemma InRange(r: Region, read: nat, ask: nat)
    requires Addressable(r) && read + ask <= r.len
    ensures (read + ask) % WORD == read + ask && (r.len - (read + ask)) % WORD == r.len - (read + ask)
    ensures read < r.len ==> (r.addr + read) % WORD == r.addr + read
    ensures ((r.addr + read) % WORD + ask) % WORD == (r.addr + (read + ask)) % WORD
  {
  }

  lemma StepTracks(mem: nat -> byte, r: Region, file: seq<byte>, g: Get, e: Event)
    requires Addressable(r) && Tracks(mem, r, file, g) && Going(r.len, g)
    requires e.Frame? ==> Whole(e.message)
    requires Accepts(e) ==> Payload(e.message) == Memory(mem, g.addr, g.ask)
    ensures Tracks(mem, r, file, Step(r.len, g, e))
  {
    hide Memory, CrcOk, Length, Payload;
    if Accepts(e) {
      MemoryAppend(mem, r.addr, g.read, g.ask);
      assert Length(e.message) == |Payload(e.message)| == g.ask;
      InRange(r, g.read, g.ask);
      assert file + Memory(mem, r.addr, g.read) + Memory(mem, g.addr, g.ask)
          == file + (Memory(mem, r.addr, g.read) + Memory(mem, g.addr, g.ask));
    }
  }

  lemma {:induction false} LoopTracks(mem: nat -> byte, r: Region, file: seq<byte>, g: Get, events: seq<Event>)
    requires Addressable(r) && Tracks(mem, r, file, g)
    requires AllWhole(events) && Honest(mem, r.len, g, events)
    ensures Tracks(mem, r, file, Loop(r.len, g, events).1)
    decreases |events|
  {
    hide Tracks, Step;
    if Going(r.len, g) && |events| > 0 {
      assert events[0] in events;
      StepTracks(mem, r, file, g, events[0]);
      LoopTracks(mem, r, file, Step(r.len, g, events[0]), events[1..]);
    }
  }

  /** A region that finishes appends its memory, exactly when it is empty or at least 10240 bytes long. */
  lemma RegionIsMemory(mem: nat -> byte, r: Region, file: seq<byte>, events: seq<Event>)
    requires Addressable(r) && AllWhole(events) && Honest(mem, r.len, Start(r, file), events)
    requires Loop(r.len, Start(r, file), events).0.Finished?
    ensures Loop(r.len, Start(r, file), events).1.file == file + Memory(mem, r.addr, r.len)
            <==> r.len == 0 || r.len >= MAX_ASK
  {
    var g := Start(r, file);
    if r.len == 0 {
      assert file + Memory(mem, r.addr, 0) == file;
    } else if r.len >= MAX_ASK {
      assert file + Memory(mem, r.addr, 0) == file;
      LoopTracks(mem, r, file, g, events);
      LoopFinishes(r.len, g, events);
    } else {
      ShortRegionReadsOver(mem, r.len, g, events);
    }
  }

  lemma {:induction false} LoopFinishes(total: nat, g: Get, events: seq<Event>)
    requires AllWhole(events) && Loop(total, g, events).0.Finished?
    ensures Loop(total, g, events).1.read >= total || total == 0
    decreases |events|
  {
    hide Step;
    if Going(total, g) && |events| > 0 {
      assert events[0] in events;
      LoopFinishes(total, Step(total, g, events[0]), events[1..]);
    }
  }

  /** The first request always asks for 10240 bytes, so a shorter region gets more than its own. */
  lemma {:induction false} ShortRegionReadsOver(mem: nat -> byte, total: nat, g: Get, events: seq<Event>)
    requires 0 < total < MAX_ASK && g.read == 0 && g.ask == MAX_ASK
    requires AllWhole(events) && Honest(mem, total, g, events) && Loop(total, g, events).0.Finished?
    ensures |Loop(total, g, events).1.file| == |g.file| + MAX_ASK
    decreases |events|
  {
    hide Length, Payload, CrcOk;
    assert events[0] in events;
    if Accepts(events[0]) {
      assert Step(total, g, events[0]).read == MAX_ASK;
    } else {
      ShortRegionReadsOver(mem, total, Step(total, g, events[0]), events[1..]);
    }
  }

  // ---------- Gaps ----------

  const INT_MAX: nat := 0x7FFF_FFFF

  /** The distance to the next region, computed in `uint32_t` and passed as an `int`. */
  function Distance(r: Region, next: Region): int {
    var d := (next.addr - (r.len + r.addr)) % WORD;
    if d <= INT_MAX then d else d - WORD
  }

  function Padding(n: int): seq<byte> {
    Zeros(if n > 0 then n else 0)
  }

  /** The gap is filled exactly when it is smaller than 2 GiB. */
  lemma GapIsPadded(r: Region, next: Region)
    requires r.addr + r.len <= next.addr < WORD
    ensures |Padding(Distance(r, next))| == next.addr - (r.addr + r.len) <==> next.addr - (r.addr + r.len) <= INT_MAX
  {
  }

  // ---------- All regions ----------

  /** The regions in turn; `finishOk` is the outcome of the final command. */
  function Dump(rs: seq<Region>, file: seq<byte>, events: seq<Event>, finishOk: bool): (Status, seq<byte>)
    requires AllWhole(events)
    decreases |rs|
  {
    if |rs| == 0 then (Finished, file)
    else
      var (status, g, rest) := Loop(rs[0].len, Start(rs[0], file), events);
      LoopSuffix(rs[0].len, Start(rs[0], file), events);
      if !status.Finished? then (status, g.file)
      else if |rs| == 1 then (if finishOk then Finished else Failed, g.file)
      else Dump(rs[1..], g.file + Padding(Distance(rs[0], rs[1])), rest, finishOk)
  }

  lemma {:induction false} LoopSuffix(total: nat, g: Get, events: seq<Event>)
    requires AllWhole(events)
    ensures AllWhole(Loop(total, g, events).2)
    decreases |events|
  {
    if Going(total, g) && |events| > 0 {
      assert events[0] in events;
      LoopSuffix(total, Step(total, g, events[0]), events[1..]);
    }
  }

  predicate HonestDump(mem: nat -> byte, rs: seq<Region>, file: seq<byte>, events: seq<Event>)
    requires AllWhole(events)
    decreases |rs|
  {
    |rs| > 0 ==>
      var g := Start(rs[0], file);
      LoopSuffix(rs[0].len, g, events);
      var (status, h, rest) := Loop(rs[0].len, g, events);
      Honest(mem, rs[0].len, g, events) &&
      (|rs| > 1 ==> HonestDump(mem, rs[1..], h.file + Padding(Distance(rs[0], rs[1])), rest))
  }

  /** Ascending and disjoint. */
  predicate Ascending(rs: seq<Region>)
    decreases |rs|
  {
    |rs| > 0 ==>
      Addressable(rs[0]) &&
      (|rs| > 1 ==> rs[0].addr + rs[0].len <= rs[1].addr < WORD && Ascending(rs[1..]))
  }

  /** Empty, or at least one full request. */
  predicate WholeRequests(r: Region) {
    r.len == 0 || r.len >= MAX_ASK
  }

  function Gap(r: Region, next: Region): int {
    next.addr - (r.addr + r.len)
  }

  /** Every region is empty or at least one full request long, every gap is below 2 GiB. */
  predicate Dumpable(rs: seq<Region>)
    decreases |rs|
  {
    |rs| > 0 ==>
      WholeRequests(rs[0]) && (|rs| > 1 ==> Gap(rs[0], rs[1]) <= INT_MAX && Dumpable(rs[1..]))
  }

  /** The image: memory inside the regions, zeros between them. */
  function Image(mem: nat -> byte, rs: seq<Region>): seq<byte>
    requires Ascending(rs)
    decreases |rs|
  {
    if |rs| == 0 then []
    else if |rs| == 1 then Memory(mem, rs[0].addr, rs[0].len)
    else
      Memory(mem, rs[0].addr, rs[0].len) +
      (Zeros(rs[1].addr - (rs[0].addr + rs[0].len)) + Image(mem, rs[1..]))
  }

  predicate Covered(rs: seq<Region>, a: nat) {
    exists r | r in rs :: r.addr <= a < r.addr + r.len
  }

  /** Offset `a - base0` of the image holds the byte of address `a` in a region, and zero in a gap. */
  lemma {:induction false} ImageAt(mem: nat -> byte, rs: seq<Region>, a: nat)
    requires Ascending(rs) && |rs| > 0
    ensures |Image(mem, rs)| == rs[|rs| - 1].addr + rs[|rs| - 1].len - rs[0].addr
    ensures rs[0].addr <= a < rs[0].addr + |Image(mem, rs)| ==>
              Image(mem, rs)[a - rs[0].addr] == if Covered(rs, a) then mem(a) else 0
    ensures a < rs[0].addr ==> !Covered(rs, a)
    decreases |rs|
  {
    var r := rs[0];
    assert rs == [r] + rs[1..];
    assert Covered(rs, a) <==> r.addr <= a < r.addr + r.len || Covered(rs[1..], a);
    if |rs| > 1 {
      ImageAt(mem, rs[1..], a);
    }
  }

  /** A successful dump of dumpable regions from an honest device is the flat image. */
  lemma {:induction false} DumpIsImage(
      mem: nat -> byte, rs: seq<Region>, file: seq<byte>, events: seq<Event>, finishOk: bool)
    requires Ascending(rs) && Dumpable(rs) && AllWhole(events) && HonestDump(mem, rs, file, events)
    requires Dump(rs, file, events, finishOk).0.Finished?
    ensures Dump(rs, file, events, finishOk).1 == file + Image(mem, rs)
    decreases |rs|
  {
    hide Memory, Zeros, Loop, Honest;
    if |rs| == 0 {
      assert file + [] == file;
    } else {
      var r := rs[0];
      RegionIsMemory(mem, r, file, events);
      LoopSuffix(r.len, Start(r, file), events);
      if |rs| > 1 {
        var (_, g, rest) := Loop(r.len, Start(r, file), events);
        var gap := Gap(r, rs[1]);
        DistanceIs(r, rs[1]);
        DumpIsImage(mem, rs[1..], g.file + Zeros(gap), rest, finishOk);
        assert file + Memory(mem, r.addr, r.len) + Zeros(gap) + Image(mem, rs[1..])
            == file + (Memory(mem, r.addr, r.len) + (Zeros(gap) + Image(mem, rs[1..])));
      }
    }
  }

  lemma DistanceIs(r: Region, next: Region)
    requires r.addr + r.len <= next.addr < WORD
    ensures Padding(Distance(r, next)) == Zeros(if Gap(r, next) <= INT_MAX then Gap(r, next) else 0)
  {
  }

  // ---------- Regions that are not dumpable ----------

  /** The bytes that a region gets beyond its own, and those that a gap is short of. */
  function Excess(r: Region): nat {
    if WholeRequests(r) then 0 else MAX_ASK - r.len
  }

  function Missing(r: Region, next: Region): nat {
    if Gap(r, next) <= INT_MAX then 0 else Gap(r, next)
  }

  function Excesses(rs: seq<Region>): nat {
    if |rs| == 0 then 0 else Excess(rs[0]) + Excesses(rs[1..])
  }

  function Missings(rs: seq<Region>): nat
    decreases |rs|
  {
    if |rs| < 2 then 0 else Missing(rs[0], rs[1]) + Missings(rs[1..])
  }

  lemma {:induction false} DumpableExactlyWhen(rs: seq<Region>)
    ensures Dumpable(rs) <==> Excesses(rs) == 0 && Missings(rs) == 0
    ensures Excesses(rs) <= MAX_ASK * |rs| && (Missings(rs) > 0 ==> Missings(rs) > INT_MAX)
    decreases |rs|
  {
    if |rs| > 0 { DumpableExactlyWhen(rs[1..]); }
  }

  lemma RegionLength(mem: nat -> byte, r: Region, file: seq<byte>, events: seq<Event>)
    requires Addressable(r) && AllWhole(events) && Honest(mem, r.len, Start(r, file), events)
    requires Loop(r.len, Start(r, file), events).0.Finished?
    ensures |Loop(r.len, Start(r, file), events).1.file| == |file| + r.len + Excess(r)
  {
    hide Loop, Honest, Memory;
    if WholeRequests(r) {
      RegionIsMemory(mem, r, file, events);
    } else {
      ShortRegionReadsOver(mem, r.len, Start(r, file), events);
    }
  }

  /** How long the file of any successful dump becomes. */
  lemma {:induction false} DumpLength(
      mem: nat -> byte, rs: seq<Region>, file: seq<byte>, events: seq<Event>, finishOk: bool)
    requires Ascending(rs) && AllWhole(events) && HonestDump(mem, rs, file, events)
    requires Dump(rs, file, events, finishOk).0.Finished?
    ensures |Dump(rs, file, events, finishOk).1| + Missings(rs) == |file| + |Image(mem, rs)| + Excesses(rs)
    decreases |rs|
  {
    hide Memory, Zeros, Loop, Honest, Excess, Distance, Padding;
    if |rs| > 0 {
      var r := rs[0];
      RegionLength(mem, r, file, events);
      LoopSuffix(r.len, Start(r, file), events);
      if |rs| > 1 {
        var (_, g, rest) := Loop(r.len, Start(r, file), events);
        DistanceIs(r, rs[1]);
        DumpLength(mem, rs[1..], g.file + Padding(Distance(r, rs[1])), rest, finishOk);
      } else {
        assert rs[1..] == [];
      }
    }
  }

  /** The table has room for this many regions. */
  const MAX_CELLS: nat := 100

  /**
   A successful dump from an honest device is the flat image exactly when its regions are dumpable: what
   short regions add never makes up for what a large gap loses.
   */
  lemma DumpIsImageExactlyWhen(
      mem: nat -> byte, rs: seq<Region>, file: seq<byte>, events: seq<Event>, finishOk: bool)
    requires Ascending(rs) && |rs| <= MAX_CELLS && AllWhole(events) && HonestDump(mem, rs, file, events)
    requires Dump(rs, file, events, finishOk).0.Finished?
    ensures Dump(rs, file, events, finishOk).1 == file + Image(mem, rs) <==> Dumpable(rs)
  {
    hide Dump, Image, Dumpable, Ascending, HonestDump, Excesses, Missings;
    DumpLength(mem, rs, file, events, finishOk);
    DumpableExactlyWhen(rs);
    if Dumpable(rs) { DumpIsImage(mem, rs, file, events, finishOk); }
  }

  // ---------- A device that answers ----------

  /** What comes back for one request: nothing, a damaged frame, or a good one with the memory asked for. */
  datatype Reply =
    | Silence
    | Damaged(head: seq<byte>, payload: seq<byte>, crc: seq<byte>, tail: seq<byte>)
    | Good(head: seq<byte>, tail: seq<byte>)

  predicate WellFormed(q: Reply) {
    match q
    case Silence => true
    case Damaged(head, payload, crc, tail) => Parts(head, payload, crc, tail) && crc != CheckOf(head, payload)
    case Good(head, tail) => |head| == 6 && |tail| >= 2 && 10 + MAX_ASK + |tail| <= 65535
  }

  predicate AllWellFormed(replies: seq<Reply>) {
    forall q | q in replies :: WellFormed(q)
  }

  function EventOf(mem: nat -> byte, addr: nat, n: nat, q: Reply): (e: Event)
    requires WellFormed(q) && n <= MAX_ASK
  {
    match q
    case Silence => NoAnswer
    case Damaged(head, payload, crc, tail) => Frame(Built(head, payload, crc, tail))
    case Good(head, tail) =>
      var payload := Memory(mem, addr, n);
      Frame(Built(head, payload, CheckOf(head, payload), tail))
  }

  function NextAsk(left: nat): nat {
    if left < MAX_ASK then left else MAX_ASK
  }

  /** The replies as the loop sees them, with `left` bytes of the region from `addr` on still missing. */
  function Session(mem: nat -> byte, addr: nat, left: nat, replies: seq<Reply>): (events: seq<Event>)
    requires AllWellFormed(replies)
    ensures |events| == |replies|
    decreases |replies|
  {
    if |replies| == 0 then []
    else
      assert replies[0] in replies;
      var n, q := NextAsk(left), replies[0];
      [EventOf(mem, addr, n, q)] +
      (if q.Good? then Session(mem, addr + n, left - n, replies[1..]) else Session(mem, addr, left, replies[1..]))
  }

  /** The last reply completes the region. */
  predicate Serves(replies: seq<Reply>, left: nat)
    decreases |replies|
  {
    if left == 0 then |replies| == 0
    else |replies| > 0 && Serves(replies[1..], if replies[0].Good? then left - NextAsk(left) else left)
  }

  /** No sixteen damaged frames come between two good ones, `fails` having come already. */
  predicate Patient(replies: seq<Reply>, fails: nat)
    decreases |replies|
  {
    fails < MAX_FAILS &&
    (|replies| > 0 ==>
       Patient(replies[1..], match replies[0] case Silence => fails case Damaged(_, _, _, _) => fails + 1 case Good(_, _) => 0))
  }

  lemma EventIsWhole(mem: nat -> byte, addr: nat, n: nat, q: Reply)
    requires WellFormed(q) && n <= MAX_ASK
    ensures var e := EventOf(mem, addr, n, q); e.Frame? ==> Whole(e.message)
  {
    hide Whole, Built, CheckOf, Memory;
    match q
    case Silence =>
    case Damaged(head, payload, crc, tail) => BuiltReadsBack(head, payload, crc, tail);
    case Good(head, tail) =>
      var payload := Memory(mem, addr, n);
      BuiltReadsBack(head, payload, CheckOf(head, payload), tail);
  }

  lemma {:induction false} SessionIsWhole(mem: nat -> byte, addr: nat, left: nat, replies: seq<Reply>)
    requires AllWellFormed(replies)
    ensures AllWhole(Session(mem, addr, left, replies))
    decreases |replies|
  {
    if |replies| > 0 {
      var n, q := NextAsk(left), replies[0];
      assert q in replies && AllWellFormed(replies[1..]);
      var addr', left' := if q.Good? then addr + n else addr, if q.Good? then left - n else left;
      assert Session(mem, addr, left, replies) == [EventOf(mem, addr, n, q)] + Session(mem, addr', left', replies[1..]);
      hide *;
      EventIsWhole(mem, addr, n, q);
      SessionIsWhole(mem, addr', left', replies[1..]);
      WholeCons(EventOf(mem, addr, n, q), Session(mem, addr', left', replies[1..]));
    }
  }

  lemma WholeCons(e: Event, events: seq<Event>)
    requires (e.Frame? ==> Whole(e.message)) && AllWhole(events)
    ensures AllWhole([e] + events)
  {
    hide Whole;
  }

  /** One reply to the request for the bytes that are missing next. */
  lemma ReplyStep(mem: nat -> byte, r: Region, file: seq<byte>, g: Get, q: Reply)
    requires Addressable(r) && Tracks(mem, r, file, g) && Going(r.len, g) && WellFormed(q)
    ensures g.ask == NextAsk(r.len - g.read) <= MAX_ASK
    ensures var e := EventOf(mem, r.addr + g.read, g.ask, q);
            (e.Frame? ==> Whole(e.message)) &&
            var h := Step(r.len, g, e);
            Tracks(mem, r, file, h) && h.read <= r.len &&
            match q
            case Silence => h == g
            case Damaged(_, _, _, _) => h == g.(fails := g.fails + 1)
            case Good(_, _) => h.read == g.read + g.ask && h.fails == 0
  {
    hide Whole, Built, CheckOf, CoveredBytes, Memory, Step, Length, Payload, CrcOk;
    InRange(r, g.read, g.ask);
    EventIsWhole(mem, r.addr + g.read, g.ask, q);
    var e := EventOf(mem, r.addr + g.read, g.ask, q);
    match q
    case Silence => SilenceIsNothing(r.len, g);
    case Damaged(head, payload, crc, tail) =>
      FrameDecides(r.len, g, head, payload, crc, tail);
      SameTracks(mem, r, file, g, g.fails + 1);
    case Good(head, tail) =>
      var payload := Memory(mem, r.addr + g.read, g.ask);
      FrameDecides(r.len, g, head, payload, CheckOf(head, payload), tail);
      BuiltReadsBack(head, payload, CheckOf(head, payload), tail);
      StepTracks(mem, r, file, g, e);
  }

  lemma SilenceIsNothing(total: nat, g: Get)
    ensures Step(total, g, NoAnswer) == g
  {
  }

  lemma SameTracks(mem: nat -> byte, r: Region, file: seq<byte>, g: Get, fails: nat)
    requires Tracks(mem, r, file, g)
    ensures Tracks(mem, r, file, g.(fails := fails))
  {
    hide Memory;
  }

  /** A region whose requests are answered, with any silence and fewer than sixteen bad frames in a row, is read. */
  lemma {:induction false} LoopServed(
      mem: nat -> byte, r: Region, file: seq<byte>, g: Get, replies: seq<Reply>, rest: seq<Event>)
    requires Addressable(r) && Tracks(mem, r, file, g) && r.len > 0
    requires AllWellFormed(replies) && Serves(replies, r.len - g.read) && Patient(replies, g.fails) && AllWhole(rest)
    ensures AllWhole(Session(mem, r.addr + g.read, r.len - g.read, replies) + rest)
    ensures var (status, h, ev) := Loop(r.len, g, Session(mem, r.addr + g.read, r.len - g.read, replies) + rest);
            status == Finished && ev == rest && h.file == file + Memory(mem, r.addr, r.len)
    decreases |replies|
  {
    hide *;
    ReadBound(mem, r, file, g);
    var at, left := r.addr + g.read, r.len - g.read;
    SessionIsWhole(mem, at, left, replies);
    WholeTogether(Session(mem, at, left, replies), rest);
    ServesNext(replies, left);
    StillGoing(replies, r.len, g);
    if g.read == r.len {
      SessionOfNone(mem, at, left, replies, rest);
      LoopDone(r.len, g, rest);
      TracksAll(mem, r, file, g);
    } else {
      SessionSplits(mem, at, left, replies, rest);
      PatientNext(replies, g.fails);
      ReplyStep(mem, r, file, g, replies[0]);
      LoopStep(r.len, g, Session(mem, at, left, replies) + rest);
      LoopServed(mem, r, file, Step(r.len, g, EventOf(mem, at, NextAsk(left), replies[0])), replies[1..], rest);
    }
  }

  lemma ReadBound(mem: nat -> byte, r: Region, file: seq<byte>, g: Get)
    requires Tracks(mem, r, file, g)
    ensures g.read <= r.len
  {
    hide Memory;
  }

  lemma ServesNext(replies: seq<Reply>, left: nat)
    requires Serves(replies, left)
    ensures left == 0 ==> |replies| == 0
    ensures left > 0 ==> |replies| > 0 && NextAsk(left) <= left &&
                         Serves(replies[1..], if replies[0].Good? then left - NextAsk(left) else left)
  {
  }

  lemma StillGoing(replies: seq<Reply>, total: nat, g: Get)
    requires Patient(replies, g.fails)
    ensures g.fails < MAX_FAILS && (g.read < total ==> Going(total, g))
  {
  }

  lemma LoopDone(total: nat, g: Get, events: seq<Event>)
    requires AllWhole(events) && g.read == total && g.fails < MAX_FAILS
    ensures Loop(total, g, events) == (Finished, g, events)
  {
    hide AllWhole;
  }

  lemma SessionOfNone(mem: nat -> byte, addr: nat, left: nat, replies: seq<Reply>, rest: seq<Event>)
    requires AllWellFormed(replies) && |replies| == 0
    ensures Session(mem, addr, left, replies) + rest == rest
  {
  }

  lemma SessionSplits(mem: nat -> byte, addr: nat, left: nat, replies: seq<Reply>, rest: seq<Event>)
    requires AllWellFormed(replies) && |replies| > 0
    ensures WellFormed(replies[0]) && AllWellFormed(replies[1..]) && NextAsk(left) <= left && NextAsk(left) <= MAX_ASK
    ensures var whole, n, q := Session(mem, addr, left, replies) + rest, NextAsk(left), replies[0];
            whole[0] == EventOf(mem, addr, n, q) &&
            whole[1..] == (if q.Good? then Session(mem, addr + n, left - n, replies[1..])
                           else Session(mem, addr, left, replies[1..])) + rest
  {
    hide WellFormed, EventOf;
    assert replies[0] in replies;
  }

  lemma PatientNext(replies: seq<Reply>, fails: nat)
    requires |replies| > 0 && Patient(replies, fails)
    ensures replies[0].Silence? ==> Patient(replies[1..], fails)
    ensures replies[0].Damaged? ==> Patient(replies[1..], fails + 1)
    ensures replies[0].Good? ==> Patient(replies[1..], 0)
  {
  }

  lemma WholeTogether(a: seq<Event>, b: seq<Event>)
    requires AllWhole(a) && AllWhole(b)
    ensures AllWhole(a + b)
  {
  }

  lemma TracksAll(mem: nat -> byte, r: Region, file: seq<byte>, g: Get)
    requires Tracks(mem, r, file, g) && g.read == r.len
    ensures g.file == file + Memory(mem, r.addr, r.len)
  {
    hide Memory;
  }

  /** Frames that are damaged, and silence, add nothing; the sixteenth damaged one ends the region. */
  lemma {:induction false} DamagedFramesFail(mem: nat -> byte, total: nat, g: Get, addr: nat, left: nat, replies: seq<Reply>)
    requires AllWellFormed(replies) && (forall q | q in replies :: !q.Good?)
    requires g.read < total && g.fails < MAX_FAILS
    ensures AllWhole(Session(mem, addr, left, replies))
    ensures var (status, h, _) := Loop(total, g, Session(mem, addr, left, replies));
            h.file == g.file && h.read == g.read && h.addr == g.addr &&
            status == if g.fails + Bad(replies) >= MAX_FAILS then Failed else Waiting
    decreases |replies|
  {
    hide Whole, WellFormed, EventOf, Step, Loop;
    var events := Session(mem, addr, left, replies);
    SessionIsWhole(mem, addr, left, replies);
    if |replies| == 0 {
      LoopWaits(total, g, events);
    } else {
      assert replies[0] in replies;
      assert events[1..] == Session(mem, addr, left, replies[1..]);
      LoopStep(total, g, events);
      RefusedStep(mem, total, g, addr, NextAsk(left), replies[0]);
      var h := Step(total, g, events[0]);
      if h.fails < MAX_FAILS {
        DamagedFramesFail(mem, total, h, addr, left, replies[1..]);
      } else {
        LoopStops(total, h, events[1..]);
      }
    }
  }

  lemma RefusedStep(mem: nat -> byte, total: nat, g: Get, addr: nat, n: nat, q: Reply)
    requires WellFormed(q) && !q.Good? && n <= MAX_ASK
    ensures var e := EventOf(mem, addr, n, q);
            (e.Frame? ==> Whole(e.message)) && Step(total, g, e) == g.(fails := g.fails + if q.Damaged? then 1 else 0)
  {
    hide Whole, Built, CheckOf, CoveredBytes, Memory, Step;
    EventIsWhole(mem, addr, n, q);
    if q.Damaged? { FrameDecides(total, g, q.head, q.payload, q.crc, q.tail); } else { SilenceIsNothing(total, g); }
  }

  function Bad(replies: seq<Reply>): nat {
    if |replies| == 0 then 0 else (if replies[0].Damaged? then 1 else 0) + Bad(replies[1..])
  }

  // ---------- A whole dump that is answered ----------

  /** One list of replies per region. */
  predicate AllServed(rs: seq<Region>, plans: seq<seq<Reply>>) {
    |plans| == |rs| &&
    forall i | 0 <= i < |rs| :: AllWellFormed(plans[i]) && Serves(plans[i], rs[i].len) && Patient(plans[i], 0)
  }

  function Sessions(mem: nat -> byte, rs: seq<Region>, plans: seq<seq<Reply>>): (events: seq<Event>)
    requires AllServed(rs, plans)
    decreases |rs|
  {
    if |rs| == 0 then [] else Session(mem, rs[0].addr, rs[0].len, plans[0]) + Sessions(mem, rs[1..], plans[1..])
  }

  /** The dump then is the flat image, and a success exactly when the final command is acknowledged. */
  lemma {:induction false} AnsweredDumpIsImage(
      mem: nat -> byte, rs: seq<Region>, file: seq<byte>, plans: seq<seq<Reply>>, finishOk: bool)
    requires Ascending(rs) && Dumpable(rs) && AllServed(rs, plans)
    ensures AllWhole(Sessions(mem, rs, plans))
    ensures Dump(rs, file, Sessions(mem, rs, plans), finishOk)
         == (if |rs| == 0 || finishOk then Finished else Failed, file + Image(mem, rs))
    decreases |rs|
  {
    if |rs| == 0 {
      assert file + [] == file;
    } else {
      hide *;
      PlansSplit(mem, rs, plans);
      RegionsSplit(rs);
      var soFar := Padded(mem, rs, file);
      AnsweredDumpIsImage(mem, rs[1..], soFar, plans[1..], finishOk);
      AnsweredTurn(mem, rs, file, plans, finishOk);
    }
  }

  /** The file after the first region and the gap behind it. */
  function Padded(mem: nat -> byte, rs: seq<Region>, file: seq<byte>): seq<byte>
    requires Ascending(rs) && |rs| > 0
  {
    file + Memory(mem, rs[0].addr, rs[0].len) + if |rs| > 1 then Zeros(Gap(rs[0], rs[1])) else []
  }

  lemma AnsweredTurn(
      mem: nat -> byte, rs: seq<Region>, file: seq<byte>, plans: seq<seq<Reply>>, finishOk: bool)
    requires |rs| > 0 && Ascending(rs) && Dumpable(rs) && AllServed(rs, plans) && AllServed(rs[1..], plans[1..])
    requires AllWhole(Sessions(mem, rs[1..], plans[1..]))
    requires Dump(rs[1..], Padded(mem, rs, file), Sessions(mem, rs[1..], plans[1..]), finishOk).1
          == Padded(mem, rs, file) + Image(mem, rs[1..])
    requires Dump(rs[1..], Padded(mem, rs, file), Sessions(mem, rs[1..], plans[1..]), finishOk).0
          == if |rs| == 1 || finishOk then Finished else Failed
    ensures AllWhole(Sessions(mem, rs, plans))
    ensures Dump(rs, file, Sessions(mem, rs, plans), finishOk)
         == (if finishOk then Finished else Failed, file + Image(mem, rs))
  {
    var r := rs[0];
    PaddedIs(mem, rs, file);
    hide *;
    PlansSplit(mem, rs, plans);
    RegionsSplit(rs);
    RegionServed(mem, r, file, plans[0], Sessions(mem, rs[1..], plans[1..]));
    DumpTurn(rs, file, Sessions(mem, rs, plans), finishOk);
    if |rs| > 1 { DistanceIs(r, rs[1]); }
  }

  lemma PaddedIs(mem: nat -> byte, rs: seq<Region>, file: seq<byte>)
    requires Ascending(rs) && |rs| > 0
    ensures Padded(mem, rs, file) + Image(mem, rs[1..]) == file + Image(mem, rs)
    ensures |rs| == 1 ==> Padded(mem, rs, file) == file + Memory(mem, rs[0].addr, rs[0].len) == file + Image(mem, rs)
    ensures |rs| > 1 ==> Padded(mem, rs, file) == file + Memory(mem, rs[0].addr, rs[0].len) + Zeros(Gap(rs[0], rs[1]))
  {
    hide Memory, Zeros;
    var region := Memory(mem, rs[0].addr, rs[0].len);
    if |rs| == 1 {
      assert rs[1..] == [];
      assert file + region + [] == file + region && file + region + [] + [] == file + region;
    } else {
      var gap, image := Zeros(Gap(rs[0], rs[1])), Image(mem, rs[1..]);
      assert Image(mem, rs) == region + (gap + image);
      hide *;
      Regroup(file, region, gap, image);
    }
  }

  lemma Regroup(a: seq<byte>, b: seq<byte>, c: seq<byte>, d: seq<byte>)
    ensures a + b + c + d == a + (b + (c + d))
  {
  }

  lemma PlansSplit(mem: nat -> byte, rs: seq<Region>, plans: seq<seq<Reply>>)
    requires AllServed(rs, plans) && |rs| > 0
    ensures AllServed(rs[1..], plans[1..])
    ensures AllWellFormed(plans[0]) && Serves(plans[0], rs[0].len) && Patient(plans[0], 0)
    ensures Sessions(mem, rs, plans) == Session(mem, rs[0].addr, rs[0].len, plans[0]) + Sessions(mem, rs[1..], plans[1..])
  {
    hide AllWellFormed, Serves, Patient, Session;
  }

  lemma RegionsSplit(rs: seq<Region>)
    requires Ascending(rs) && Dumpable(rs) && |rs| > 0
    ensures Addressable(rs[0]) && WholeRequests(rs[0]) && Ascending(rs[1..]) && Dumpable(rs[1..])
    ensures |rs| > 1 ==> rs[0].addr + rs[0].len <= rs[1].addr < WORD && 0 <= Gap(rs[0], rs[1]) <= INT_MAX
  {
  }

  /** One region of the dump. */
  lemma DumpTurn(rs: seq<Region>, file: seq<byte>, events: seq<Event>, finishOk: bool)
    requires |rs| > 0 && AllWhole(events) && Loop(rs[0].len, Start(rs[0], file), events).0.Finished?
    ensures AllWhole(Loop(rs[0].len, Start(rs[0], file), events).2)
    ensures var (_, g, rest) := Loop(rs[0].len, Start(rs[0], file), events);
            Dump(rs, file, events, finishOk) ==
            if |rs| == 1 then (if finishOk then Finished else Failed, g.file)
            else Dump(rs[1..], g.file + Padding(Distance(rs[0], rs[1])), rest, finishOk)
  {
    hide Loop, Distance, Padding;
    LoopSuffix(rs[0].len, Start(rs[0], file), events);
  }

  lemma RegionServed(mem: nat -> byte, r: Region, file: seq<byte>, replies: seq<Reply>, rest: seq<Event>)
    requires Addressable(r) && WholeRequests(r) && AllWhole(rest)
    requires AllWellFormed(replies) && Serves(replies, r.len) && Patient(replies, 0)
    ensures AllWhole(Session(mem, r.addr, r.len, replies) + rest)
    ensures var (status, h, ev) := Loop(r.len, Start(r, file), Session(mem, r.addr, r.len, replies) + rest);
            status == Finished && ev == rest && h.file == file + Memory(mem, r.addr, r.len)
  {
    assert file + Memory(mem, r.addr, 0) == file;
    if r.len == 0 {
      hide Loop, AllWhole;
      assert Session(mem, r.addr, 0, replies) + rest == rest;
      LoopStops(0, Start(r, file), rest);
    } else {
      hide Loop, AllWhole, Patient, Serves, AllWellFormed, Memory;
      LoopServed(mem, r, file, Start(r, file), replies, rest);
    }
  }

  // ---------- The loop, pass by pass ----------

  lemma LoopStep(total: nat, g: Get, events: seq<Event>)
    requires AllWhole(events) && |events| > 0 && Going(total, g)
    ensures (events[0].Frame? ==> Whole(events[0].message)) && AllWhole(events[1..])
    ensures Loop(total, g, events) == Loop(total, Step(total, g, events[0]), events[1..])
    ensures events[0].NoAnswer? ==> Step(total, g, events[0]) == g
  {
    hide Whole, CrcOk, Length, Payload;
    assert events[0] in events;
  }

  lemma LoopWaits(total: nat, g: Get, events: seq<Event>)
    requires AllWhole(events) && |events| == 0 && Going(total, g)
    ensures Loop(total, g, events) == (Waiting, g, [])
  {
  }

  lemma LoopStops(total: nat, g: Get, events: seq<Event>)
    requires AllWhole(events) && !Going(total, g)
    ensures Loop(total, g, events) == (if g.fails >= MAX_FAILS then Failed else Finished, g, events)
  {
    hide AllWhole;
  }

  lemma StepIs(total: nat, g: Get, m: seq<byte>)
    requires Whole(m)
    ensures 8 <= |m| && var h, len := Step(total, g, Frame(m)), Length(m);
            if CrcOk(m) then
              h.read == (g.read + len) % WORD && h.addr == (g.addr + len) % WORD && h.fails == 0 &&
              h.file == g.file + Payload(m) &&
              h.ask == var left := (total - h.read) % WORD; if left < MAX_ASK then left else g.ask
            else h == g.(fails := g.fails + 1)
  {
    hide CrcOk, Length, Payload;
  }

  /** The check of one frame, with the CRC computed by `CRC16`. */
  method CheckFrame(m: seq<byte>) returns (ok: bool)
    requires Whole(m)
    ensures ok == CrcOk(m)
  {
    hide EigenCrc.Crc, StoredCrc, Length;
    var crc := EigenCrc.Calc(0xFFFF, m[..8 + Length(m)]);
    ok := crc == StoredCrc(m);
  }

  // ---------- The C functions ----------

  class Dumper {
    var file: seq<byte>

    constructor ()
      ensures file == []
    {
      file := [];
    }

    /** `GetDumpDataUsb` up to its finish command; saves are complete. */
    method GetDumpData(r: Region, events: seq<Event>) returns (status: Status, rest: seq<Event>)
      requires AllWhole(events)
      modifies this
      ensures var (s, g, ev) := Loop(r.len, Start(r, old(file)), events);
              status == s && file == g.file && rest == ev
    {
      hide Loop, Step, Whole, Payload, Length, StoredCrc, CrcOk, AllWhole;
      var read: nat, addr: nat, ask: nat, fails: nat, i: nat := 0, r.addr, MAX_ASK, 0, 0;
      ghost var whole := Loop(r.len, Start(r, file), events);
      assert events[0..] == events;
      while read < r.len && r.len > 0 && fails < MAX_FAILS
        invariant i <= |events| && AllWhole(events[i..])
        invariant whole == Loop(r.len, Get(read, addr, ask, fails, file), events[i..])
        decreases |events| - i
      {
        ghost var g := Get(read, addr, ask, fails, file);
        if i == |events| {
          LoopWaits(r.len, g, events[i..]);
          return Waiting, [];
        }
        LoopStep(r.len, g, events[i..]);
        assert events[i..][0] == events[i] && events[i..][1..] == events[i + 1..];
        if events[i].Frame? {
          var m := events[i].message;
          StepIs(r.len, g, m);
          var len := Length(m);
          var ok := CheckFrame(m);
          if ok {
            file := file + Payload(m);
            read := (read + len) % WORD;
            addr := (addr + len) % WORD;
            if (r.len - read) % WORD < MAX_ASK { ask := (r.len - read) % WORD; }
            fails := 0;
          } else {
            fails := fails + 1;
          }
        }
        i := i + 1;
      }
      LoopStops(r.len, Get(read, addr, ask, fails, file), events[i..]);
      status := if fails >= MAX_FAILS then Failed else Finished;
      rest := events[i..];
    }

    /** `PaddingDumpFile`: zeros in blocks of at most 512 bytes. */
    method PaddingDumpFile(n: int)
      modifies this
      ensures file == old(file) + Padding(n)
    {
      var left := n;
      assert file + Zeros(0) == file;
      while left > 0
        invariant n <= 0 ==> left == n && file == old(file)
        invariant n > 0 ==> 0 <= left <= n && file == old(file) + Zeros(n - left)
      {
        var block := if left > 512 then 512 else left;
        assert Zeros(n - left) + Zeros(block) == Zeros(n - left + block);
        file := file + Zeros(block);
        left := left - block;
      }
      assert n <= 0 ==> old(file) + Padding(n) == old(file);
    }

    /** The region loop of `enigen_catch_dump`. */
    method CatchDump(rs: seq<Region>, events: seq<Event>, finishOk: bool) returns (status: Status)
      requires AllWhole(events)
      modifies this
      ensures Dump(rs, old(file), events, finishOk) == (status, file)
    {
      hide Loop, Distance, Padding;
      var i, rest := 0, events;
      while i < |rs|
        invariant i <= |rs| && AllWhole(rest)
        invariant i < |rs| || finishOk || |rs| == 0
        invariant Dump(rs[i..], file, rest, finishOk) == Dump(rs, old(file), events, finishOk)
      {
        assert rs[i..][0] == rs[i] && rs[i..][1..] == rs[i + 1..];
        LoopSuffix(rs[i].len, Start(rs[i], file), rest);
        status, rest := GetDumpData(rs[i], rest);
        if !status.Finished? { return; }
        if i == |rs| - 1 && !finishOk { return Failed; }
        if i + 1 < |rs| {
          assert rs[i..][1] == rs[i + 1];
          PaddingDumpFile(Distance(rs[i], rs[i + 1]));
        }
        i := i + 1;
      }
      status := Finished;
    }
  }
}
