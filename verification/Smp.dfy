/**
 The SMP reassembly of unisoc.c: `unisoc_proc_log_buf` finds framed packages in a byte stream that
 arrives in pieces, and rewrites each header in place to save length and payload in one go.
 */
module Smp {
  import opened Bytes
  import FrmChk

  const START: seq<byte> := [0x7E, 0x7E, 0x7E, 0x7E]
  const LOG_MAX: nat := 24 * 1024
  const PIECE_MAX: nat := 2028 * 2

  // ---------- One package ----------

  /** The declared length: header and payload. */
  function Len(s: seq<byte>): (n: int)
    requires |s| >= 12
    ensures 0 <= n < 0x1_0000
  {
    Le16(s[4], s[5])
  }

  /** The checks on start flag, checksum, lcn, packet type and reserved word. */
  predicate Accepts(s: seq<byte>)
    requires |s| >= 12
  {
    s[..4] == START && FrmChk.Passes(s[4..12]) && s[6] == 0 && (s[7] == 0 || s[7] == 0xF8) &&
    Le16(s[8], s[9]) == 0x5A5A
  }

  /** What is saved for a package: the payload length and the payload. */
  function Record(s: seq<byte>): seq<byte>
    requires |s| >= 12 && 8 <= Len(s) && 4 + Len(s) <= |s|
  {
    Le32Bytes(Len(s) - 8) + s[12..4 + Len(s)]
  }

  /** Every header the parser accepts in `s`, complete or pending, declares at least its own eight bytes. */
  predicate Parsable(s: seq<byte>)
    decreases |s|
  {
    if |s| < 12 then true
    else if !Accepts(s) then Parsable(s[1..])
    else 8 <= Len(s) && (4 + Len(s) <= |s| ==> Parsable(s[4 + Len(s)..]))
  }

  // ---------- A whole buffer ----------

  datatype Parsed = Parsed(out: seq<seq<byte>>, left: seq<byte>)

  const NONE := Parsed([], [])

  function Parse(s: seq<byte>): (p: Parsed)
    requires Parsable(s)
    ensures |p.left| <= |s| && Settled(p.left)
    decreases |s|
  {
    if |s| < 12 then Parsed([], s)
    else if !Accepts(s) then Parse(s[1..])
    else if 4 + Len(s) > |s| then Parsed([], s)
    else
      var p := Parse(s[4 + Len(s)..]);
      p.(out := [Record(s)] + p.out)
  }

  /** A leftover: too short for a header, or an accepted header whose package is not complete. */
  predicate Settled(left: seq<byte>) {
    |left| < 12 || (Accepts(left) && 8 <= Len(left) && 4 + Len(left) > |left|)
  }

  lemma SettledStays(left: seq<byte>)
    requires Settled(left)
    ensures Parsable(left) && Parse(left) == Parsed([], left)
  {
  }

  /** Parsing may stop anywhere and go on with the leftover: nothing is lost, found twice or misread. */
  lemma {:induction false} ParseResumes(a: seq<byte>, b: seq<byte>)
    requires Parsable(a + b)
    ensures Parsable(a) && Parsable(Parse(a).left + b)
    ensures var p := Parse(a);
            Parse(a + b) == Parsed(p.out + Parse(p.left + b).out, Parse(p.left + b).left)
    decreases |a|
  {
    hide Accepts, Record, Len;
    if |a| >= 12 {
      SameHead(a, b);
      if !Accepts(a) {
        assert (a + b)[1..] == a[1..] + b;
        ParseResumes(a[1..], b);
      } else if 4 + Len(a) <= |a| {
        var n := 4 + Len(a);
        assert (a + b)[n..] == a[n..] + b;
        ParseResumes(a[n..], b);
      }
    }
  }

  lemma SameHead(a: seq<byte>, b: seq<byte>)
    requires |a| >= 12
    ensures Accepts(a + b) == Accepts(a) && Len(a + b) == Len(a)
    ensures 8 <= Len(a) && 4 + Len(a) <= |a| ==> Record(a + b) == Record(a)
  {
    hide FrmChk.Passes, Le16;
    var whole := a + b;
    assert whole[..4] == a[..4] && whole[4..12] == a[4..12];
    if 8 <= Len(a) && 4 + Len(a) <= |a| {
      assert whole[12..4 + Len(a)] == a[12..4 + Len(a)];
    }
  }

  // ---------- Pieces ----------

  /** The piece does not fit behind the leftover. */
  predicate Overflows(left: seq<byte>, piece: seq<byte>) {
    left != [] && |left| + |piece| > LOG_MAX
  }

  /** One call; a piece that does not fit is thrown away. */
  function Piece(p: Parsed, piece: seq<byte>): Parsed
    requires Overflows(p.left, piece) || Parsable(p.left + piece)
  {
    if Overflows(p.left, piece) then p
    else
      var q := Parse(p.left + piece);
      q.(out := p.out + q.out)
  }

  predicate PiecesParsable(p: Parsed, pieces: seq<seq<byte>>)
    decreases |pieces|
  {
    |pieces| == 0 || ((Overflows(p.left, pieces[0]) || Parsable(p.left + pieces[0])) &&
                      PiecesParsable(Piece(p, pieces[0]), pieces[1..]))
  }

  function Feed(p: Parsed, pieces: seq<seq<byte>>): Parsed
    requires PiecesParsable(p, pieces)
    decreases |pieces|
  {
    if |pieces| == 0 then p else Feed(Piece(p, pieces[0]), pieces[1..])
  }

  /** Some piece is thrown away. */
  predicate Drops(p: Parsed, pieces: seq<seq<byte>>)
    decreases |pieces|
  {
    |pieces| > 0 && (Overflows(p.left, pieces[0]) ||
                     (Parsable(p.left + pieces[0]) && Drops(Piece(p, pieces[0]), pieces[1..])))
  }

  /** While no piece is thrown away, the pieces are read exactly as the stream they are cut from. */
  lemma {:induction false} KeptPiecesAreOneStream(p: Parsed, pieces: seq<seq<byte>>)
    requires Parsable(p.left + Flatten(pieces)) && Settled(p.left) && !Drops(p, pieces)
    ensures PiecesParsable(p, pieces)
    ensures var whole := Parse(p.left + Flatten(pieces));
            Feed(p, pieces) == whole.(out := p.out + whole.out)
    decreases |pieces|
  {
    hide Parse, Parsable, Settled;
    if |pieces| == 0 {
      SettledStays(p.left);
      assert p.left + Flatten(pieces) == p.left && p.out + [] == p.out;
    } else {
      var now, later := p.left + pieces[0], Flatten(pieces[1..]);
      assert p.left + Flatten(pieces) == now + later;
      ParseResumes(now, later);
      var next := Piece(p, pieces[0]);
      assert next.left == Parse(now).left && next.out == p.out + Parse(now).out;
      KeptPiecesAreOneStream(next, pieces[1..]);
      assert p.out + Parse(now).out + Parse(next.left + later).out
          == p.out + (Parse(now).out + Parse(next.left + later).out);
    }
  }

  // ---------- When no piece can be thrown away ----------

  /** The longest package of which all but the last byte and one full piece fit the log buffer together. */
  const SHORT_MAX: nat := 20517

  /** Every accepted header declares at most 20517 bytes, or is among the last 24 KiB of the stream. */
  predicate Roomy(s: seq<byte>)
    requires Parsable(s)
    decreases |s|
  {
    if |s| < 12 then true
    else if !Accepts(s) then Roomy(s[1..])
    else (Len(s) <= SHORT_MAX || |s| <= LOG_MAX) && (4 + Len(s) <= |s| ==> Roomy(s[4 + Len(s)..]))
  }

  predicate Cuts(pieces: seq<seq<byte>>, s: seq<byte>) {
    (forall k | 0 <= k < |pieces| :: |pieces[k]| <= PIECE_MAX) && Flatten(pieces) == s
  }

  lemma {:induction false} RoomyResumes(a: seq<byte>, b: seq<byte>)
    requires Parsable(a + b) && Roomy(a + b)
    ensures Parsable(a) && Parsable(Parse(a).left + b) && Roomy(Parse(a).left + b)
    decreases |a|
  {
    hide Accepts, Record, Len;
    ParseResumes(a, b);
    if |a| >= 12 {
      SameHead(a, b);
      if !Accepts(a) {
        assert (a + b)[1..] == a[1..] + b;
        RoomyResumes(a[1..], b);
      } else if 4 + Len(a) <= |a| {
        var n := 4 + Len(a);
        assert (a + b)[n..] == a[n..] + b;
        RoomyResumes(a[n..], b);
      }
    }
  }

  /** What is still to come of a roomy stream fits behind the leftover, at least up to one full piece. */
  lemma RoomyLeavesRoom(left: seq<byte>, later: seq<byte>)
    requires Settled(left) && Parsable(left + later) && Roomy(left + later)
    ensures |left| + PIECE_MAX <= LOG_MAX || |left| + |later| <= LOG_MAX
  {
    hide Accepts, Len;
    if |left| >= 12 { SameHead(left, later); }
  }

  lemma {:induction false} RoomyNeverDrops(p: Parsed, pieces: seq<seq<byte>>)
    requires forall k | 0 <= k < |pieces| :: |pieces[k]| <= PIECE_MAX
    requires Settled(p.left) && Parsable(p.left + Flatten(pieces)) && Roomy(p.left + Flatten(pieces))
    ensures !Drops(p, pieces)
    decreases |pieces|
  {
    hide Parse, Parsable, Settled, Roomy;
    if |pieces| > 0 {
      var now, later := p.left + pieces[0], Flatten(pieces[1..]);
      assert p.left + Flatten(pieces) == now + later;
      RoomyLeavesRoom(p.left, Flatten(pieces));
      RoomyResumes(now, later);
      RoomyNeverDrops(Piece(p, pieces[0]), pieces[1..]);
    }
  }

  /** One byte short of 4 + 20518: a leftover behind which no full piece fits. */
  const STUCK: nat := SHORT_MAX + 4

  /** A stream that is not roomy has a prefix with such a leftover, and a full piece behind it. */
  lemma {:induction false} StuckPrefix(s: seq<byte>) returns (n: nat)
    requires Parsable(s) && !Roomy(s)
    ensures STUCK <= n && n + PIECE_MAX <= |s|
    ensures Parsable(s[..n]) && |Parse(s[..n]).left| == STUCK
    decreases |s|
  {
    hide Accepts, Record, Len;
    if !Accepts(s) {
      var m := StuckPrefix(s[1..]);
      n := m + 1;
      Prefix(s, n);
      assert s[..n][1..] == s[1..][..m];
    } else if Len(s) > SHORT_MAX && |s| > LOG_MAX {
      n := STUCK;
      Prefix(s, n);
    } else {
      var len := 4 + Len(s);
      var m := StuckPrefix(s[len..]);
      n := m + len;
      Prefix(s, n);
      assert s[..n][len..] == s[len..][..m];
    }
  }

  lemma Prefix(s: seq<byte>, n: nat)
    requires 12 <= n <= |s| && Parsable(s)
    ensures Parsable(s[..n]) && Accepts(s[..n]) == Accepts(s) && Len(s[..n]) == Len(s)
  {
    hide Accepts, Len, Parsable;
    assert s == s[..n] + s[n..];
    SameHead(s[..n], s[n..]);
    ParseResumes(s[..n], s[n..]);
  }

  /** Pieces of 4056 bytes, the last one shorter: how `unisoc_logfile_save` cuts a buffer. */
  function Cut(s: seq<byte>): (pieces: seq<seq<byte>>)
    decreases |s|
  {
    if |s| == 0 then [] else if |s| <= PIECE_MAX then [s] else [s[..PIECE_MAX]] + Cut(s[PIECE_MAX..])
  }

  lemma {:induction false} CutCuts(s: seq<byte>)
    ensures Cuts(Cut(s), s)
    ensures |s| % PIECE_MAX == 0 ==> forall k | 0 <= k < |Cut(s)| :: |Cut(s)[k]| == PIECE_MAX
    decreases |s|
  {
    if |s| > PIECE_MAX {
      var first, rest := s[..PIECE_MAX], s[PIECE_MAX..];
      CutCuts(rest);
      assert Cut(s)[1..] == Cut(rest) && s == first + rest;
    } else if |s| > 0 {
      assert Cut(s)[1..] == [] && s + [] == s;
    }
  }

  lemma {:induction false} DropsLater(p: Parsed, a: seq<seq<byte>>, b: seq<seq<byte>>)
    requires Drops(p, a) || (PiecesParsable(p, a) && Drops(Feed(p, a), b))
    ensures Drops(p, a + b)
    decreases |a|
  {
    hide Parse, Parsable;
    if |a| == 0 {
      assert a + b == b;
    } else if !Overflows(p.left, a[0]) {
      assert (a + b)[1..] == a[1..] + b;
      DropsLater(Piece(p, a[0]), a[1..], b);
    }
  }

  /** For a stream that is not roomy there is a way to cut it that throws a piece away. */
  lemma TightDrops(s: seq<byte>) returns (pieces: seq<seq<byte>>)
    requires Parsable(s) && !Roomy(s)
    ensures Cuts(pieces, s) && Drops(NONE, pieces)
  {
    hide *;
    var n := StuckPrefix(s);
    assert s[..n] + (s[n..n + PIECE_MAX] + s[n + PIECE_MAX..]) == s;
    ThreePieces(s[..n], s[n..n + PIECE_MAX], s[n + PIECE_MAX..]);
    StuckDrops(s[..n], s[n..n + PIECE_MAX], Cut(s[n + PIECE_MAX..]));
    pieces := Cut(s[..n]) + ([s[n..n + PIECE_MAX]] + Cut(s[n + PIECE_MAX..]));
  }

  lemma ThreePieces(a: seq<byte>, full: seq<byte>, b: seq<byte>)
    requires |full| == PIECE_MAX
    ensures Cuts(Cut(a) + ([full] + Cut(b)), a + (full + b))
  {
    hide Cut;
    CutCuts(a);
    CutCuts(b);
    FlattenAppend(Cut(a), [full] + Cut(b));
    assert ([full] + Cut(b))[1..] == Cut(b);
  }

  lemma StuckDrops(a: seq<byte>, full: seq<byte>, back: seq<seq<byte>>)
    requires Parsable(a) && |Parse(a).left| == STUCK && |full| == PIECE_MAX
    ensures Drops(NONE, Cut(a) + ([full] + back))
  {
    assert Settled(NONE.left);
    hide Parse, Parsable, Settled, Drops, Feed, PiecesParsable, Cut;
    CutCuts(a);
    if !Drops(NONE, Cut(a)) {
      assert NONE.left + Flatten(Cut(a)) == a;
      KeptPiecesAreOneStream(NONE, Cut(a));
      OverflowDrops(Feed(NONE, Cut(a)), full, back);
    }
    DropsLater(NONE, Cut(a), [full] + back);
  }

  lemma OverflowDrops(p: Parsed, piece: seq<byte>, back: seq<seq<byte>>)
    requires Overflows(p.left, piece)
    ensures Drops(p, [piece] + back)
  {
  }

  /** A stream is safe from losing a piece, however it is cut, exactly when it is roomy. */
  lemma SafeExactlyWhenRoomy(s: seq<byte>)
    requires Parsable(s)
    ensures Roomy(s) <==> forall pieces | Cuts(pieces, s) :: !Drops(NONE, pieces)
  {
    hide Parse, Parsable, Roomy, Drops;
    if Roomy(s) {
      forall pieces | Cuts(pieces, s) ensures !Drops(NONE, pieces) {
        assert NONE.left + Flatten(pieces) == s;
        RoomyNeverDrops(NONE, pieces);
      }
    } else {
      var pieces := TightDrops(s);
    }
  }

  /** A roomy stream gives its records and its leftover for every way to cut it. */
  lemma PiecesAreOneStream(p: Parsed, pieces: seq<seq<byte>>)
    requires forall k | 0 <= k < |pieces| :: |pieces[k]| <= PIECE_MAX
    requires Settled(p.left) && Parsable(p.left + Flatten(pieces)) && Roomy(p.left + Flatten(pieces))
    ensures PiecesParsable(p, pieces)
    ensures var whole := Parse(p.left + Flatten(pieces));
            Feed(p, pieces) == whole.(out := p.out + whole.out)
  {
    RoomyNeverDrops(p, pieces);
    KeptPiecesAreOneStream(p, pieces);
  }

  /** The stream's accepted headers, complete or pending, declare at most 20517 bytes. */
  predicate Short(s: seq<byte>)
    decreases |s|
  {
    if |s| < 12 then true
    else if !Accepts(s) then Short(s[1..])
    else 8 <= Len(s) <= SHORT_MAX && (4 + Len(s) <= |s| ==> Short(s[4 + Len(s)..]))
  }

  /** Declared lengths of up to 20517 bytes are safe in every stream. */
  lemma {:induction false} ShortIsRoomy(s: seq<byte>)
    requires Short(s)
    ensures Parsable(s) && Roomy(s)
    decreases |s|
  {
    hide Accepts, Len;
    if |s| >= 12 {
      if !Accepts(s) {
        ShortIsRoomy(s[1..]);
      } else if 4 + Len(s) <= |s| {
        ShortIsRoomy(s[4 + Len(s)..]);
      }
    }
  }

  /** Behind the leftover of such a stream there is always room for a full piece. */
  lemma {:induction false} LeftoverBound(s: seq<byte>)
    requires Short(s)
    ensures Parsable(s) && |Parse(s).left| + PIECE_MAX <= LOG_MAX
    decreases |s|
  {
    hide Accepts, Len, Record;
    if |s| >= 12 {
      if !Accepts(s) {
        LeftoverBound(s[1..]);
      } else if 4 + Len(s) <= |s| {
        LeftoverBound(s[4 + Len(s)..]);
      }
    }
  }

  // ---------- Well-formed streams ----------

  /** What a 16-bit length can declare. */
  const PAYLOAD_MAX: nat := 0xFFFF - 8

  /** Noise without 0x7E and the package that follows it. */
  datatype Package = Package(noise: seq<byte>, core: bool, payload: seq<byte>)

  predicate GoodPackage(k: Package) {
    FLAG !in k.noise && |k.payload| <= PAYLOAD_MAX
  }

  predicate AllGood(ks: seq<Package>) {
    forall k | k in ks :: GoodPackage(k)
  }

  function HeaderBody(core: bool, payload: seq<byte>): (h: seq<byte>)
    requires |payload| <= PAYLOAD_MAX
    ensures |h| == 6
  {
    Le16Bytes(8 + |payload|) + [0, if core then 0xF8 else 0] + Le16Bytes(0x5A5A)
  }

  function Framed(core: bool, payload: seq<byte>): (s: seq<byte>)
    requires |payload| <= PAYLOAD_MAX
    ensures |s| == 12 + |payload|
  {
    START + FrmChk.Sealed(HeaderBody(core, payload)) + payload
  }

  function Stream(ks: seq<Package>): seq<byte>
    requires AllGood(ks)
  {
    if |ks| == 0 then []
    else
      assert GoodPackage(ks[0]);
      ks[0].noise + (Framed(ks[0].core, ks[0].payload) + Stream(ks[1..]))
  }

  function SavedPackage(payload: seq<byte>): seq<byte>
    requires |payload| <= PAYLOAD_MAX
  {
    Le32Bytes(|payload|) + payload
  }

  function Saved(ks: seq<Package>): seq<seq<byte>>
    requires AllGood(ks)
  {
    if |ks| == 0 then []
    else
      assert GoodPackage(ks[0]);
      [SavedPackage(ks[0].payload)] + Saved(ks[1..])
  }

  lemma FramedIsAccepted(core: bool, payload: seq<byte>, rest: seq<byte>)
    requires |payload| <= PAYLOAD_MAX
    ensures var s := Framed(core, payload) + rest;
            Accepts(s) && Len(s) == 8 + |payload| && Record(s) == SavedPackage(payload) &&
            s[4 + Len(s)..] == rest
  {
    hide ByteOf, Le16, Le16Bytes, FrmChk.Passes, FrmChk.Sealed;
    var s, h := Framed(core, payload) + rest, HeaderBody(core, payload);
    FrmChk.SealedPasses(h);
    assert s[..4] == START && s[4..12] == FrmChk.Sealed(h);
    assert s[4..12][..6] == h;
    assert s[4] == h[0] && s[5] == h[1] && s[6] == h[2] && s[7] == h[3] && s[8] == h[4] && s[9] == h[5];
    assert s[12..12 + |payload|] == payload && s[12 + |payload|..] == rest;
  }

  lemma {:induction false} NoiseIsSkipped(noise: seq<byte>, s: seq<byte>)
    requires FLAG !in noise && |s| >= 12 && Parsable(s)
    ensures Parsable(noise + s) && Parse(noise + s) == Parse(s) && Short(noise + s) == Short(s)
    decreases |noise|
  {
    var whole := noise + s;
    if |noise| == 0 {
      assert whole == s;
    } else {
      assert whole[..4][0] == whole[0] == noise[0] != START[0];
      assert whole[1..] == noise[1..] + s;
      NoiseIsSkipped(noise[1..], s);
    }
  }

  predicate AllShort(ks: seq<Package>) {
    forall k | k in ks :: |k.payload| <= SHORT_MAX - 8
  }

  /** Sealed packages with noise between them are saved in order, and what follows is parsed as if alone. */
  lemma {:induction false} StreamThen(ks: seq<Package>, s: seq<byte>)
    requires AllGood(ks) && Parsable(s)
    ensures Parsable(Stream(ks) + s)
    ensures Parse(Stream(ks) + s) == Parsed(Saved(ks) + Parse(s).out, Parse(s).left)
    ensures AllShort(ks) && Short(s) ==> Short(Stream(ks) + s)
    decreases |ks|
  {
    hide *;
    if |ks| == 0 {
      StreamOfNone(ks, s);
    } else {
      var k := ks[0];
      StreamBegins(ks, s);
      StreamThen(ks[1..], s);
      FramedThen(k.core, k.payload, Stream(ks[1..]) + s);
      NoiseIsSkipped(k.noise, Framed(k.core, k.payload) + (Stream(ks[1..]) + s));
      JoinRecords([SavedPackage(k.payload)], Saved(ks[1..]), Parse(s).out);
    }
  }

  lemma JoinRecords(a: seq<seq<byte>>, b: seq<seq<byte>>, c: seq<seq<byte>>)
    ensures a + b + c == a + (b + c)
  {
  }

  lemma StreamOfNone(ks: seq<Package>, s: seq<byte>)
    requires AllGood(ks) && |ks| == 0 && Parsable(s)
    ensures Stream(ks) + s == s && Saved(ks) + Parse(s).out == Parse(s).out
  {
    hide Parse, Parsable;
  }

  lemma StreamBegins(ks: seq<Package>, s: seq<byte>)
    requires AllGood(ks) && |ks| > 0
    ensures AllGood(ks[1..]) && |ks[0].payload| <= PAYLOAD_MAX && FLAG !in ks[0].noise
    ensures AllShort(ks) ==> AllShort(ks[1..]) && |ks[0].payload| <= SHORT_MAX - 8
    ensures Stream(ks) + s == ks[0].noise + (Framed(ks[0].core, ks[0].payload) + (Stream(ks[1..]) + s))
    ensures Saved(ks) == [SavedPackage(ks[0].payload)] + Saved(ks[1..])
  {
    hide Framed, SavedPackage;
    assert GoodPackage(ks[0]);
    var a, b, c := ks[0].noise, Framed(ks[0].core, ks[0].payload), Stream(ks[1..]);
    assert a + (b + c) + s == a + (b + (c + s));
  }

  /** One sealed package in front. */
  lemma FramedThen(core: bool, payload: seq<byte>, rest: seq<byte>)
    requires |payload| <= PAYLOAD_MAX && Parsable(rest)
    ensures var s := Framed(core, payload) + rest;
            |s| >= 12 && Parsable(s) && Parse(s) == Parsed([SavedPackage(payload)] + Parse(rest).out, Parse(rest).left) &&
            (|payload| <= SHORT_MAX - 8 && Short(rest) ==> Short(s))
  {
    hide Accepts, Record, Len, SavedPackage, Framed;
    FramedIsAccepted(core, payload, rest);
  }

  /** So a stream of sealed packages yields length and payload of each, in order, and no leftover. */
  lemma StreamIsSaved(ks: seq<Package>)
    requires AllGood(ks)
    ensures Parsable(Stream(ks)) && Parse(Stream(ks)) == Parsed(Saved(ks), [])
    ensures AllShort(ks) ==> Short(Stream(ks))
  {
    NothingParses();
    hide *;
    StreamThen(ks, []);
    assert Stream(ks) + [] == Stream(ks) && Saved(ks) + [] == Saved(ks);
  }

  lemma NothingParses()
    ensures Parsable([]) && Parse([]) == NONE == Parsed([], []) && Short([])
  {
  }

  /** And, for packages of at most 20517 bytes, it does so however the stream is cut into pieces. */
  lemma StreamInPiecesIsSaved(ks: seq<Package>, pieces: seq<seq<byte>>)
    requires AllGood(ks) && AllShort(ks) && Cuts(pieces, Stream(ks))
    ensures PiecesParsable(NONE, pieces) && Feed(NONE, pieces) == Parsed(Saved(ks), [])
  {
    hide Parse, Parsable, Stream, Saved, Feed, PiecesParsable, AllShort;
    StreamIsSaved(ks);
    ShortIsRoomy(Stream(ks));
    assert NONE.left + Flatten(pieces) == Stream(ks);
    PiecesAreOneStream(NONE, pieces);
  }

  // ---------- Damaged packages ----------

  /** What an accepted header is: the start flag, words that add up to ones, and the three fixed fields. */
  lemma AcceptedExactlyWhen(s: seq<byte>)
    requires |s| >= 12
    ensures Accepts(s) <==>
            s[0] == s[1] == s[2] == s[3] == FLAG &&
            FrmChk.OnesSum(FrmChk.Words(s[4..12], false)) == 0xFFFF &&
            s[6] == 0 && (s[7] == 0 || s[7] == 0xF8) && s[8] == 0x5A && s[9] == 0x5A
  {
    hide FrmChk.Passes, FrmChk.OnesSum, FrmChk.Words, Le16;
    FrmChk.PassesMeansOnes(s[4..12]);
    BothBytes(s[8], s[9]);
    var front := s[..4];
    assert front[0] == s[0] && front[1] == s[1] && front[2] == s[2] && front[3] == s[3];
    if s[0] == s[1] == s[2] == s[3] == FLAG { assert front == START; }
  }

  lemma BothBytes(lo: byte, hi: byte)
    ensures Le16(lo, hi) == 0x5A5A <==> lo == 0x5A && hi == 0x5A
  {
  }

  /** A sealed package with one of the four header words replaced. */
  function Damaged(core: bool, payload: seq<byte>, word: nat, x: byte, y: byte): (s: seq<byte>)
    requires |payload| <= PAYLOAD_MAX && word < 4
    ensures |s| == 12 + |payload|
  {
    Framed(core, payload)[4 + 2 * word := x][5 + 2 * word := y]
  }

  /** It is refused whenever the new word means another number in one's-complement arithmetic. */
  lemma DamagedIsRefused(core: bool, payload: seq<byte>, word: nat, x: byte, y: byte, rest: seq<byte>)
    requires |payload| <= PAYLOAD_MAX && word < 4
    requires var f := Framed(core, payload);
             (Le16(x, y) - Le16(f[4 + 2 * word], f[5 + 2 * word])) % 0xFFFF != 0
    ensures !Accepts(Damaged(core, payload, word, x, y) + rest)
  {
    hide FrmChk.Passes, FrmChk.Sealed, Le16, HeaderBody;
    var h := FrmChk.Sealed(HeaderBody(core, payload));
    FrmChk.SealedPasses(HeaderBody(core, payload));
    var d := Damaged(core, payload, word, x, y) + rest;
    var f := Framed(core, payload);
    assert f[4 + 2 * word] == h[2 * word] && f[5 + 2 * word] == h[1 + 2 * word];
    var a, b := h[..2 * word], h[2 * word + 2..];
    assert h == a + [h[2 * word], h[1 + 2 * word]] + b;
    assert d[4..12] == a + [x, y] + b;
    FrmChk.DamagedWordFails(a, h[2 * word], h[1 + 2 * word], b, x, y);
  }

  /** No start flag begins inside `junk`, except perhaps at its first byte. */
  predicate NoStartInside(junk: seq<byte>, s: seq<byte>) {
    forall i | 0 < i < |junk| :: !(START <= (junk + s)[i..])
  }

  /** Refused bytes without a start flag among them are skipped. */
  lemma {:induction false} JunkIsSkipped(junk: seq<byte>, s: seq<byte>)
    requires |s| >= 12 && Parsable(s) && NoStartInside(junk, s) && (|junk| > 0 ==> !Accepts(junk + s))
    ensures Parsable(junk + s) && Parse(junk + s) == Parse(s)
    decreases |junk|
  {
    hide Accepts, Record, Len;
    if |junk| == 0 {
      assert junk + s == s;
    } else {
      var rest := junk[1..];
      assert (junk + s)[1..] == rest + s;
      forall i | 0 < i < |rest| ensures !(START <= (rest + s)[i..]) {
        assert (junk + s)[i + 1..] == (rest + s)[i..];
      }
      if |rest| > 0 {
        assert (junk + s)[1..] == rest + s == (rest + s)[0..];
        StartNeeded(rest + s);
      }
      JunkIsSkipped(rest, s);
    }
  }

  lemma StartNeeded(s: seq<byte>)
    requires |s| >= 12
    ensures Accepts(s) ==> START <= s
  {
    hide FrmChk.Passes, Le16;
  }

  /** A damaged header costs its own package only: everything before and behind it is saved. */
  lemma OnlyTheDamagedIsLost(
      before: seq<Package>, core: bool, payload: seq<byte>, word: nat, x: byte, y: byte, after: seq<Package>)
    requires AllGood(before) && AllGood(after) && |after| > 0 && |payload| <= PAYLOAD_MAX && word < 4
    requires var f := Framed(core, payload);
             (Le16(x, y) - Le16(f[4 + 2 * word], f[5 + 2 * word])) % 0xFFFF != 0
    requires NoStartInside(Damaged(core, payload, word, x, y), Stream(after))
    ensures var s := Stream(before) + (Damaged(core, payload, word, x, y) + Stream(after));
            Parsable(s) && Parse(s) == Parsed(Saved(before) + Saved(after), [])
  {
    StreamIsLong(after);
    hide Parse, Parsable, Stream, Saved, Damaged, Framed, NoStartInside;
    StreamIsSaved(after);
    DamagedIsRefused(core, payload, word, x, y, Stream(after));
    JunkIsSkipped(Damaged(core, payload, word, x, y), Stream(after));
    StreamThen(before, Damaged(core, payload, word, x, y) + Stream(after));
  }

  lemma StreamIsLong(ks: seq<Package>)
    requires AllGood(ks) && |ks| > 0
    ensures |Stream(ks)| >= 12
  {
    hide Framed;
    assert GoodPackage(ks[0]);
  }

  // ---------- Longer packages ----------

  /** The bytes missing to the next multiple of a full piece. */
  function Filler(n: nat): (k: nat)
    ensures k > 0 && (n + k) % PIECE_MAX == 0
  {
    var q := n / PIECE_MAX + 1;
    assert (PIECE_MAX * q) % PIECE_MAX == 0;
    PIECE_MAX * q - n
  }

  lemma {:induction false} ZerosAreNoise(n: nat)
    ensures Parsable(Zeros(n))
    decreases n
  {
    var s := Zeros(n);
    if n >= 12 {
      assert s[..4][0] == 0 != START[0];
      assert s[1..] == Zeros(n - 1);
      ZerosAreNoise(n - 1);
    }
  }

  /**
   The limit is exact: every package that declares more than 20517 bytes is lost in some stream that
   starts with it, cut in some way. Its header stays in the leftover, accepted, and nothing is saved.
   */
  lemma LongerPackageIsLost(core: bool, payload: seq<byte>) returns (s: seq<byte>, pieces: seq<seq<byte>>)
    requires SHORT_MAX - 8 < |payload| <= PAYLOAD_MAX
    ensures Framed(core, payload) <= s && Cuts(pieces, s)
    ensures Parsable(s) && |Parse(s).out| > 0 && Parse(s).out[0] == SavedPackage(payload)
    ensures PiecesParsable(NONE, pieces) && Feed(NONE, pieces).out == []
    ensures |Feed(NONE, pieces).left| == STUCK && Accepts(Feed(NONE, pieces).left)
  {
    hide *;
    s := LongHeader(core, payload);
    StuckInTwoCalls(s[..STUCK], s[STUCK..]);
    assert s[..STUCK] + s[STUCK..] == s;
    pieces := Cut(s[..STUCK]) + Cut(s[STUCK..]);
  }

  /** Two buffers handed over one after the other; the second goes lost behind what the first left. */
  lemma StuckInTwoCalls(a: seq<byte>, b: seq<byte>)
    requires |a| == STUCK && |b| % PIECE_MAX == 0 && Parsable(a) && Roomy(a) && Parse(a) == Parsed([], a)
    ensures var pieces := Cut(a) + Cut(b);
            Cuts(pieces, a + b) && PiecesParsable(NONE, pieces) && Feed(NONE, pieces) == Parsed([], a)
  {
    assert Settled(NONE.left);
    hide Parse, Parsable, Settled, Cut, Feed, PiecesParsable, Flatten, Roomy;
    var front, back := Cut(a), Cut(b);
    CutCuts(a);
    CutCuts(b);
    FlattenAppend(front, back);
    assert NONE.left + Flatten(front) == a;
    PiecesAreOneStream(NONE, front);
    assert Feed(NONE, front) == Parsed([], a);
    AllOverflow(Parsed([], a), back);
    FeedAppend(NONE, front, back);
  }

  /**
   The package and as many zeros as make the part behind `STUCK` full pieces. Cut off at `STUCK`, the
   package is pending; in the whole stream it is the first record.
   */
  lemma LongHeader(core: bool, payload: seq<byte>) returns (s: seq<byte>)
    requires SHORT_MAX - 8 < |payload| <= PAYLOAD_MAX
    ensures Framed(core, payload) <= s && |s| > STUCK && (|s| - STUCK) % PIECE_MAX == 0
    ensures Parsable(s) && |Parse(s).out| > 0 && Parse(s).out[0] == SavedPackage(payload) && Accepts(s[..STUCK])
    ensures Parsable(s[..STUCK]) && Parse(s[..STUCK]) == Parsed([], s[..STUCK]) && Roomy(s[..STUCK])
  {
    hide Accepts, Record, Len, Framed, SavedPackage, Zeros;
    var tail := Zeros(Filler(12 + |payload| - STUCK));
    s := Framed(core, payload) + tail;
    FramedIsAccepted(core, payload, tail);
    ZerosAreNoise(|tail|);
    assert s == s[..STUCK] + s[STUCK..];
    SameHead(s[..STUCK], s[STUCK..]);
  }

  lemma {:induction false} AllOverflow(p: Parsed, pieces: seq<seq<byte>>)
    requires |p.left| == STUCK && forall k | 0 <= k < |pieces| :: |pieces[k]| == PIECE_MAX
    ensures PiecesParsable(p, pieces) && Feed(p, pieces) == p
    decreases |pieces|
  {
    if |pieces| > 0 { AllOverflow(p, pieces[1..]); }
  }

  lemma {:induction false} FeedAppend(p: Parsed, a: seq<seq<byte>>, b: seq<seq<byte>>)
    requires PiecesParsable(p, a) && PiecesParsable(Feed(p, a), b)
    ensures PiecesParsable(p, a + b) && Feed(p, a + b) == Feed(Feed(p, a), b)
    decreases |a|
  {
    hide Parse, Parsable;
    if |a| == 0 {
      assert a + b == b;
    } else {
      assert (a + b)[1..] == a[1..] + b;
      FeedAppend(Piece(p, a[0]), a[1..], b);
    }
  }

  // ---------- The object ----------

  class Parser {
    const logBuf: array<byte>
    var logSize: nat
    var saved: seq<seq<byte>>

    ghost predicate Valid()
      reads this
    {
      logBuf.Length == LOG_MAX && logSize <= LOG_MAX
    }

    ghost function Abs(): Parsed
      requires Valid()
      reads this, logBuf
    {
      Parsed(saved, logBuf[..logSize])
    }

    constructor ()
      ensures Valid() && Abs() == NONE && fresh(logBuf)
    {
      logBuf := new byte[LOG_MAX];
      logSize, saved := 0, [];
    }

    /** `unisoc_logfile_save` for the log type with SMP framing: at most 4056 bytes at a time. */
    method Save(buf: array<byte>, size: nat)
      requires Valid() && size <= buf.Length && buf != logBuf
      requires PiecesParsable(Abs(), Cut(buf[..size]))
      modifies this, logBuf, buf
      ensures Valid() && Abs() == Feed(old(Abs()), Cut(old(buf[..size])))
      ensures OneStream(old(Abs()), old(buf[..size]), Abs())
    {
      hide Parse, Parsable, Overflows, Cut;
      ghost var before, src := Abs(), buf[..size];
      var cur := 0;
      assert src[0..] == src;
      while cur < size
        invariant cur <= size && Valid()
        invariant buf[cur..size] == src[cur..] && PiecesParsable(Abs(), Cut(src[cur..]))
        invariant Feed(Abs(), Cut(src[cur..])) == Feed(before, Cut(src))
      {
        var len := size - cur;
        if len > 2028 * 2 { len := 2028 * 2; }
        PieceAt(buf[..], src, cur, cur + len, size);
        CutStep(src[cur..]);
        ghost var was := buf[..];
        ProcLogBuf(buf, cur, len);
        RestAt(was, buf[..], src, cur, cur + len, size);
        cur := cur + len;
      }
      assert src[cur..] == [];
      CutIsOneStream(before, src);
      CutNothing();
    }

    /** `unisoc_proc_log_buf`: the package headers of the caller's buffer are overwritten. */
    method ProcLogBuf(inBuf: array<byte>, off: nat, size: nat)
      requires Valid() && off + size <= inBuf.Length && inBuf != logBuf && size <= LOG_MAX
      requires Overflows(Abs().left, inBuf[off..off + size]) || Parsable(Abs().left + inBuf[off..off + size])
      modifies this, logBuf, inBuf
      ensures Valid() && Abs() == Piece(old(Abs()), old(inBuf[off..off + size]))
      ensures inBuf[..off] == old(inBuf[..off]) && inBuf[off + size..] == old(inBuf[off + size..])
    {
      hide Parse, Parsable;
      ghost var whole := Abs().left + inBuf[off..off + size];
      if logSize > 0 {
        if logSize + size > LOG_MAX { return; }
        forall k | 0 <= k < size { logBuf[logSize + k] := inBuf[off + k]; }
        var total := logSize + size;
        assert logBuf[0..total] == whole;
        var cur := ParseIn(logBuf, 0, total);
        KeepRest(logBuf, cur, total);
      } else {
        assert whole == inBuf[off..off + size];
        var cur := ParseIn(inBuf, off, off + size);
        KeepRest(inBuf, cur, off + size);
      }
    }

    /** The final memmove. */
    method KeepRest(a: array<byte>, from: nat, to: nat)
      requires Valid() && from <= to <= a.Length && to - from <= LOG_MAX
      modifies this`logSize, logBuf
      ensures Valid() && logBuf[..logSize] == old(a[from..to])
    {
      logSize := to - from;
      forall k | 0 <= k < logSize { logBuf[k] := a[from + k]; }
    }

    /** The parsing loop over `a[base..end]`. */
    method ParseIn(a: array<byte>, base: nat, end: nat) returns (cur: nat)
      requires base <= end <= a.Length && Parsable(a[base..end])
      modifies this`saved, a
      ensures base <= cur <= end && a[cur..end] == Parse(old(a[base..end])).left
      ensures saved == old(saved) + Parse(old(a[base..end])).out
      ensures a[..base] == old(a[..base]) && a[end..] == old(a[end..])
    {
      hide Parse, Parsable;
      ghost var src := a[base..end];
      cur := base;
      var n: nat := 1;
      while cur < end && n > 0
        invariant base <= cur <= end && Parsable(a[cur..end])
        invariant saved + Parse(a[cur..end]).out == old(saved) + Parse(src).out
        invariant Parse(a[cur..end]).left == Parse(src).left
        invariant n == 0 ==> Parse(a[cur..end]) == Parsed([], a[cur..end])
        invariant a[..base] == old(a[..base]) && a[end..] == old(a[end..])
        decreases end - cur, n
      {
        ghost var before := a[..];
        n := TryPackage(a, cur, end);
        OutsideStays(before, a[..], base, cur, cur + n, end);
        cur := cur + n;
      }
      ParseStep(a[cur..end]);
      assert saved + [] == saved;
    }

    /** One pass of the loop: the number of bytes consumed, or zero when more bytes must come first. */
    method TryPackage(a: array<byte>, p: nat, end: nat) returns (n: nat)
      requires p < end <= a.Length && Parsable(a[p..end])
      modifies this`saved, a
      ensures n <= end - p && a[..p] == old(a[..p]) && a[p + n..] == old(a[p + n..])
      ensures Parsable(a[p + n..end])
      ensures saved + Parse(a[p + n..end]).out == old(saved) + Parse(old(a[p..end])).out
      ensures Parse(a[p + n..end]).left == Parse(old(a[p..end])).left
      ensures n == 0 ==> Parse(a[p..end]) == Parsed([], a[p..end])
    {
      hide *;
      ghost var rest := a[p..end];
      ParseStep(rest);
      n := 0;
      if p + 12 > end { return; }
      HeadOf(a[..], p, end);
      var head := a[p..p + 12];
      var accepted := CheckPackage(head);
      if !accepted {
        assert rest[1..] == a[p + 1..end];
        return 1;
      }
      var len := Len(head);
      if p + 4 + len <= end {
        Take(a, p, end, len);
        n := 4 + len;
      }
    }

    /** The package at `p` is complete: save it. */
    method Take(a: array<byte>, p: nat, end: nat, len: nat)
      requires p + 12 <= p + 4 + len <= end <= a.Length && Parsable(a[p..end])
      requires Accepts(a[p..end]) && Len(a[p..end]) == len
      modifies this`saved, a
      ensures a[..p] == old(a[..p]) && a[p + 4 + len..] == old(a[p + 4 + len..])
      ensures Parsable(a[p + 4 + len..end])
      ensures saved + Parse(a[p + 4 + len..end]).out == old(saved) + Parse(old(a[p..end])).out
      ensures Parse(a[p + 4 + len..end]).left == Parse(old(a[p..end])).left
    {
      hide *;
      ghost var s, next := a[..], p + 4 + len;
      assert a[p..end] == s[p..end];
      TakeStep(s, p, end, len);
      SaveRecord(a, p, len);
      assert a[next..end] == a[next..][..end - next] == s[next..][..end - next] == s[next..end];
      ghost var record, later := Le32Bytes(len - 8) + s[p + 12..next], Parse(s[next..end]).out;
      assert old(saved) + [record] + later == old(saved) + ([record] + later);
    }

    /** `WriteDataToFile` with a header to spare: the length goes over the last four header bytes. */
    method SaveRecord(a: array<byte>, p: nat, len: nat)
      requires 8 <= len && p + 4 + len <= a.Length && len < 0x1_0000
      modifies this`saved, a
      ensures saved == old(saved) + [Le32Bytes(len - 8) + old(a[p + 12..p + 4 + len])]
      ensures a[..p] == old(a[..p]) && a[p + 4 + len..] == old(a[p + 4 + len..])
    {
      hide *;
      ghost var before := a[..];
      var le32 := Le32Bytes(len - 8);
      PutFour(a, p + 8, le32);
      Overwritten(before, a[..], p, le32, p + 4 + len);
      saved := saved + [a[p + 8..p + 4 + len]];
    }
  }

  method PutFour(a: array<byte>, at: nat, four: seq<byte>)
    requires at + 4 <= a.Length && |four| == 4
    modifies a
    ensures a[..] == old(a[..at]) + four + old(a[at + 4..])
  {
    a[at], a[at + 1], a[at + 2], a[at + 3] := four[0], four[1], four[2], four[3];
  }

  /** What a pass leaves outside its own bytes, it leaves outside the whole range. */
  lemma OutsideStays(s: seq<byte>, t: seq<byte>, base: nat, from: nat, to: nat, end: nat)
    requires base <= from <= to <= end <= |s| && |t| == |s|
    requires t[..from] == s[..from] && t[to..] == s[to..]
    ensures t[..base] == s[..base] && t[end..] == s[end..]
  {
    assert t[..base] == t[..from][..base] && s[..base] == s[..from][..base];
    assert t[end..] == t[to..][end - to..] && s[end..] == s[to..][end - to..];
  }

  lemma Overwritten(s: seq<byte>, t: seq<byte>, p: nat, four: seq<byte>, end: nat)
    requires |four| == 4 && p + 12 <= end <= |s| && t == s[..p + 8] + four + s[p + 12..]
    ensures t[..p] == s[..p] && t[end..] == s[end..] && t[p + 8..end] == four + s[p + 12..end]
  {
  }

  /** The checks before a package is taken, with the checksum computed by `frm_chk`. */
  method CheckPackage(s: seq<byte>) returns (ok: bool)
    requires |s| >= 12
    ensures ok == Accepts(s)
  {
    hide FrmChk.Check, Le16;
    ok := false;
    if s[..4] == START {
      var chk := FrmChk.Calc(s[4..12], false);
      ok := chk == 0 && s[6] == 0 && (s[7] == 0 || s[7] == 0xF8) && Le16(s[8], s[9]) == 0x5A5A;
    }
  }

  lemma ParseStep(s: seq<byte>)
    requires Parsable(s)
    ensures |s| < 12 ==> Parse(s) == Parsed([], s)
    ensures |s| >= 12 && !Accepts(s) ==> Parsable(s[1..]) && Parse(s) == Parse(s[1..])
    ensures |s| >= 12 && Accepts(s) ==> 8 <= Len(s)
    ensures |s| >= 12 && Accepts(s) && 4 + Len(s) > |s| ==> Parse(s) == Parsed([], s)
    ensures |s| >= 12 && Accepts(s) && 4 + Len(s) <= |s| ==>
              Parsable(s[4 + Len(s)..]) &&
              Record(s) == Le32Bytes(Len(s) - 8) + s[12..4 + Len(s)] &&
              Parse(s).out == [Record(s)] + Parse(s[4 + Len(s)..]).out &&
              Parse(s).left == Parse(s[4 + Len(s)..]).left
  {
  }

  lemma HeadOf(s: seq<byte>, p: nat, end: nat)
    requires p + 12 <= end <= |s|
    ensures Accepts(s[p..p + 12]) == Accepts(s[p..end]) && Len(s[p..p + 12]) == Len(s[p..end])
  {
    var head, rest := s[p..p + 12], s[p..end];
    assert rest == head + rest[12..];
    SameHead(head, rest[12..]);
  }

  /** A slice of a slice. */
  lemma Slice(s: seq<byte>, from: nat, to: nat, x: nat, y: nat)
    requires from <= to <= |s| && x <= y <= to - from
    ensures s[from..to][x..y] == s[from + x..from + y]
  {
    var inner, outer := s[from..to][x..y], s[from + x..from + y];
    assert |inner| == |outer| == y - x;
    forall k | 0 <= k < y - x ensures inner[k] == outer[k] {
      assert inner[k] == s[from..to][x + k] == s[from + (x + k)];
    }
  }

  /** The complete package at `p` is the next record. */
  lemma TakeStep(s: seq<byte>, p: nat, end: nat, len: nat)
    requires p + 12 <= p + 4 + len <= end <= |s| && Parsable(s[p..end])
    requires Accepts(s[p..end]) && Len(s[p..end]) == len
    ensures len >= 8 && len < 0x1_0000 && Parsable(s[p + 4 + len..end])
    ensures var next := p + 4 + len;
            Parse(s[p..end]).out == [Le32Bytes(len - 8) + s[p + 12..next]] + Parse(s[next..end]).out &&
            Parse(s[p..end]).left == Parse(s[next..end]).left
  {
    hide Parse, Parsable, Accepts, Record, Len;
    ParseStep(s[p..end]);
    Slice(s, p, end, 12, 4 + len);
    Slice(s, p, end, 4 + len, end - p);
  }

  /** The next piece is the same bytes in the buffer and in the source. */
  lemma PieceAt(buf: seq<byte>, src: seq<byte>, from: nat, to: nat, size: nat)
    requires from <= to <= size <= |buf| && |src| == size && buf[from..size] == src[from..]
    ensures buf[from..to] == src[from..][..to - from] && src[from..][to - from..] == src[to..]
  {
    assert buf[from..to] == buf[from..size][..to - from];
  }

  /** Behind the piece the buffer is unchanged. */
  lemma RestAt(was: seq<byte>, buf: seq<byte>, src: seq<byte>, from: nat, to: nat, size: nat)
    requires from <= to <= size <= |was| == |buf| && |src| == size && was[from..size] == src[from..]
    requires buf[to..] == was[to..]
    ensures buf[to..size] == src[to..]
  {
    assert buf[to..size] == buf[to..][..size - to] && was[to..size] == was[to..][..size - to];
    assert was[to..size] == was[from..size][to - from..];
  }

  lemma CutNothing()
    ensures Cut([]) == []
  {
  }

  /** The first piece of a cut and the rest. */
  lemma CutStep(s: seq<byte>)
    requires |s| > 0
    ensures var n := if |s| > PIECE_MAX then PIECE_MAX else |s|;
            var pieces := Cut(s);
            |pieces| > 0 && pieces[0] == s[..n] && pieces[1..] == Cut(s[n..])
  {
  }

  /** After the buffer `s`, the state `p` has become `q` as if the stream had come in one piece. */
  ghost predicate OneStream(p: Parsed, s: seq<byte>, q: Parsed) {
    Settled(p.left) && Parsable(p.left + s) && Roomy(p.left + s) ==>
      q == Parsed(p.out + Parse(p.left + s).out, Parse(p.left + s).left)
  }

  lemma CutIsOneStream(p: Parsed, s: seq<byte>)
    requires PiecesParsable(p, Cut(s))
    ensures OneStream(p, s, Feed(p, Cut(s)))
  {
    hide Parse, Parsable, Roomy, Settled, Cut;
    CutCuts(s);
    if Settled(p.left) && Parsable(p.left + s) && Roomy(p.left + s) { PiecesAreOneStream(p, Cut(s)); }
  }
}
