/**
 The sending side of the diag framing in qshrink4.c: `diag_qsr4_append_crc16` and `diag_send_data`.
 */
module DiagSend {
  import opened Bytes
  import opened Crc16

  // ---------- Byte stuffing ----------

  predicate Special(b: byte) {
    b == FLAG || b == ESCAPE
  }

  function StuffByte(b: byte): seq<byte> {
    if Special(b) then [ESCAPE, 0x20 ^ b] else [b]
  }

  function Stuff(body: seq<byte>): (s: seq<byte>)
    ensures |body| <= |s| <= 2 * |body|
  {
    if |body| == 0 then [] else Stuff(body[..|body| - 1]) + StuffByte(body[|body| - 1])
  }

  /** A message ends in 0x7E, which is sent unstuffed to end the frame. */
  function Frame(msg: seq<byte>): seq<byte>
    requires |msg| > 0
  {
    Stuff(msg[..|msg| - 1]) + [FLAG]
  }

  /** A payload with its check sequence and the closing flag. */
  function Message(payload: seq<byte>): (msg: seq<byte>)
    ensures |msg| == |payload| + 3
  {
    payload + FcsBytes(payload) + [FLAG]
  }

  lemma UnstuffSpecial(b: byte)
    ensures (0x20 ^ b) ^ 0x20 == b
  {
  }

  // ---------- The two C functions ----------

  /** `diag_qsr4_append_crc16`: the buffer must have three bytes to spare. */
  method AppendCrc16(buf: array<byte>, len: nat) returns (total: nat)
    requires len + 3 <= buf.Length
    modifies buf
    ensures total == len + 3 && buf[..total] == Message(old(buf[..len]))
    ensures buf[total..] == old(buf[total..])
  {
    var crc := Calc(buf, len);
    buf[len] := (crc & 0xFF) as byte;
    buf[len + 1] := ((crc >> 8) & 0xFF) as byte;
    buf[len + 2] := FLAG;
    total := len + 3;
    assert buf[..len] == old(buf[..len]);
  }

  /**
   `diag_send_data`: the frame is built in the request buffer behind its first `bytes` bytes, which is
   where the source usually is too. The frame must fit the buffer.
   */
  method SendData(req: array<byte>, buf: array<byte>, bytes: nat) returns (sent: seq<byte>)
    requires 0 < bytes <= buf.Length
    requires bytes + |Frame(buf[..bytes])| <= req.Length
    modifies req
    ensures sent == Frame(old(buf[..bytes]))
    ensures req[..bytes] == old(req[..bytes])
  {
    ghost var front, body := req[..bytes], buf[..bytes - 1];
    assert buf[..bytes][..bytes - 1] == body;
    var end := StuffBehind(req, buf, bytes, front, body);
    req[end] := 0x7E;
    sent := req[bytes..end + 1];
    assert req[..end] == front + Stuff(body);
    assert sent == req[..end][bytes..] + [FLAG];
    assert req[..bytes] == req[..end][..bytes];
  }

  /** The loop of `diag_send_data`. */
  method StuffBehind(req: array<byte>, buf: array<byte>, bytes: nat, ghost front: seq<byte>, ghost body: seq<byte>)
    returns (end: nat)
    requires 0 < bytes <= buf.Length && bytes + |Stuff(body)| < req.Length
    requires body == buf[..bytes - 1] && front == req[..bytes]
    modifies req
    ensures end == bytes + |Stuff(body)| && req[..end] == front + Stuff(body)
  {
    end := bytes;
    BuiltStartsAndEnds(front, body);
    assert buf == req ==> body == front[..bytes - 1];
    hide Built, Stuff, StuffByte;
    for i := 0 to bytes - 1
      invariant end == |Built(front, body, i)| < req.Length
      invariant req[..end] == Built(front, body, i)
      invariant buf == req || unchanged(buf)
    {
      BuiltNext(front, body, i);
      assert buf == req ==> buf[i] == req[..end][i] == front[i];
      end := PutStuffed(req, end, buf[i]);
    }
  }

  /** The request buffer's front part and the first `i` bytes of the body, stuffed. */
  ghost function Built(front: seq<byte>, body: seq<byte>, i: nat): seq<byte>
    requires i <= |body|
  {
    front + Stuff(body[..i])
  }

  lemma BuiltStartsAndEnds(front: seq<byte>, body: seq<byte>)
    ensures Built(front, body, 0) == front && Built(front, body, |body|) == front + Stuff(body)
  {
    assert body[..0] == [] && body[..|body|] == body;
  }

  lemma BuiltNext(front: seq<byte>, body: seq<byte>, i: nat)
    requires i < |body| && |body| <= |front|
    ensures Built(front, body, i + 1) == Built(front, body, i) + StuffByte(body[i])
    ensures |Built(front, body, i + 1)| <= |front| + |Stuff(body)|
    ensures i < |Built(front, body, i)| && Built(front, body, i)[i] == front[i]
  {
    hide StuffByte;
    assert body[..i + 1][..i] == body[..i];
    StuffPrefix(body, i + 1);
  }

  method PutStuffed(req: array<byte>, at: nat, ch: byte) returns (end: nat)
    requires at + |StuffByte(ch)| <= req.Length
    modifies req
    ensures end == at + |StuffByte(ch)|
    ensures req[..end] == old(req[..at]) + StuffByte(ch)
  {
    if ch == 0x7E || ch == 0x7D {
      req[at] := 0x7D;
      req[at + 1] := 0x20 ^ ch;
      end := at + 2;
    } else {
      req[at] := ch;
      end := at + 1;
    }
  }

  lemma {:induction false} StuffPrefix(body: seq<byte>, k: nat)
    requires k <= |body|
    ensures |Stuff(body[..k])| <= |Stuff(body)|
    decreases |body| - k
  {
    if k == |body| {
      assert body[..k] == body;
    } else {
      StuffPrefix(body, k + 1);
      assert body[..k + 1][..k] == body[..k];
    }
  }

  /** Stuffing at most doubles, so the 100-byte request buffer is enough for any message of 33 bytes. */
  lemma RequestBufferFits(msg: seq<byte>)
    requires 0 < |msg|
    ensures |Frame(msg)| <= 2 * |msg| - 1
    ensures |msg| <= 33 ==> |msg| + |Frame(msg)| <= 100
  {
  }
}
