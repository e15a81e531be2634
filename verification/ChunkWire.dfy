/** A reference sender for section 5.3.1 of the RTMP 1.0 specification: any legal mix of
    message header types, chunk stream id widths and interleaving of chunk streams. The
    receiver of `ChunkStream` is proved to reassemble whatever it sends. */
module ChunkWire {
  import opened Bytes
  import opened ChunkStream

  type uint24 = x: int | 0 <= x < 0x100_0000

  /** What a chunk stream remembers of its previous message. `field` is the 24-bit time field. */
  datatype Previous = Previous(streamId: uint32, length: nat, typeId: byte, field: uint24, timeStamp: uint32)

  /** A message part of which has been sent; `stamp` goes into every extended timestamp. */
  datatype Sending = Sending(msg: Message, field: uint24, stamp: uint32, sent: nat)

  datatype Lane = Lane(sending: Option<Sending>, previous: Option<Previous>)

  /** `sent` is the history of messages whose last chunk is out; `streamId` is the message
      stream of the last one that ended, with a payload or without. */
  datatype Wire = Wire(chunkSize: nat, lanes: map<nat, Lane>, sent: seq<Message>, failed: bool, streamId: uint32)

  /** The sender's next chunk: the first one of `msg`, or the next one of the message under
      way on `csid`. `width` is the number of bytes of the basic header. */
  datatype Chunk = Open(width: nat, fmt: nat, msg: Message) | Continue(width: nat, csid: nat)

  function LaneOf(w: Wire, csid: nat): Lane {
    if csid in w.lanes then w.lanes[csid] else Lane(None, None)
  }

  predicate FitsWidth(csid: nat, width: nat) {
    || (width == 1 && 2 <= csid < 64)
    || (width == 2 && 64 <= csid < 320)
    || (width == 3 && 64 <= csid < 65600)
  }

  /** The time a header of type `fmt` has to convey: absolute for type 0, else the delta. */
  function StampOf(fmt: nat, msg: Message, previous: Option<Previous>): uint32
    requires fmt == 0 || previous.Some?
  {
    if fmt == 0 then msg.timeStamp else (msg.timeStamp - previous.value.timeStamp) % TWO_32
  }

  function FieldOf(fmt: nat, stamp: uint32, previous: Option<Previous>): uint24
    requires fmt == 3 ==> previous.Some?
  {
    if fmt == 3 then previous.value.field else if stamp >= 0xFF_FFFF then 0xFF_FFFF else stamp
  }

  predicate Legal(w: Wire, c: Chunk) {
    !w.failed &&
    match c
    case Open(width, fmt, msg) =>
      var lane := LaneOf(w, msg.csid);
      && lane.sending.None?
      && FitsWidth(msg.csid, width)
      && fmt < 4
      && |msg.body| < TWO_24
      && (fmt > 0 ==> lane.previous.Some? && lane.previous.value.streamId == msg.streamId)
      && (fmt > 1 ==> lane.previous.value.length == |msg.body| && lane.previous.value.typeId == msg.typeId)
      && (fmt > 2 ==>
            lane.previous.value.field == 0xFF_FFFF || lane.previous.value.field == StampOf(fmt, msg, lane.previous))
    case Continue(width, csid) =>
      LaneOf(w, csid).sending.Some? && FitsWidth(csid, width)
  }

  // ---------------------------------------------------------------- bytes of a chunk

  function BasicBytes(fmt: nat, csid: nat, width: nat): (r: seq<byte>)
    requires fmt < 4 && FitsWidth(csid, width)
    ensures |r| == width
  {
    if width == 1 then [fmt * 64 + csid]
    else if width == 2 then [fmt * 64, csid - 64]
    else [fmt * 64 + 1, (csid - 64) % 0x100, (csid - 64) / 0x100]
  }

  function HeaderBytes(fmt: nat, field: uint24, msg: Message): (r: seq<byte>)
    requires fmt < 4
    ensures |r| == HeaderLength(fmt) - 1
  {
    if fmt == 0 then SetBe24(field) + SetBe24(|msg.body|) + [msg.typeId] + SetLe32(msg.streamId)
    else if fmt == 1 then SetBe24(field) + SetBe24(|msg.body|) + [msg.typeId]
    else if fmt == 2 then SetBe24(field)
    else []
  }

  function ExtendedBytes(field: uint24, stamp: uint32): seq<byte> {
    if field == 0xFF_FFFF then SetBe32(stamp) else []
  }

  function Piece(chunkSize: nat, s: Sending): nat
    requires s.sent <= |s.msg.body|
  {
    if chunkSize < |s.msg.body| - s.sent then chunkSize else |s.msg.body| - s.sent
  }

  /** What a first chunk starts, before any payload. */
  function Begin(w: Wire, fmt: nat, msg: Message): Sending
    requires fmt > 0 ==> LaneOf(w, msg.csid).previous.Some?
  {
    var previous := LaneOf(w, msg.csid).previous;
    var stamp := StampOf(fmt, msg, previous);
    Sending(msg, FieldOf(fmt, stamp, previous), stamp, 0)
  }

  ghost predicate GoodLane(l: Lane, csid: nat) {
    l.sending.Some? ==>
      var s := l.sending.value;
      s.sent <= |s.msg.body| < TWO_24 && s.sent < |s.msg.body| && s.msg.csid == csid
  }

  ghost predicate GoodWire(w: Wire) {
    forall c {:trigger LaneOf(w, c)} :: GoodLane(LaneOf(w, c), c)
  }

  function PayloadBytes(chunkSize: nat, s: Sending): seq<byte>
    requires s.sent <= |s.msg.body|
  {
    ExtendedBytes(s.field, s.stamp) + s.msg.body[s.sent..s.sent + Piece(chunkSize, s)]
  }

  function IdOf(c: Chunk): nat {
    if c.Open? then c.msg.csid else c.csid
  }

  function FmtOf(c: Chunk): nat {
    if c.Open? then c.fmt else 3
  }

  /** The message whose next piece the chunk carries. */
  function SendingFor(w: Wire, c: Chunk): Sending
    requires Legal(w, c)
  {
    if c.Open? then Begin(w, c.fmt, c.msg) else LaneOf(w, c.csid).sending.value
  }

  lemma SendingForIsGood(w: Wire, c: Chunk)
    requires GoodWire(w) && Legal(w, c)
    ensures var s := SendingFor(w, c); s.sent <= |s.msg.body| < TWO_24 && s.msg.csid == IdOf(c)
  {
    assert GoodLane(LaneOf(w, IdOf(c)), IdOf(c));
  }

  ghost function Encode(w: Wire, c: Chunk): seq<byte>
    requires GoodWire(w) && Legal(w, c)
  {
    SendingForIsGood(w, c);
    var s := SendingFor(w, c);
    BasicBytes(FmtOf(c), IdOf(c), c.width) + (HeaderBytes(FmtOf(c), s.field, s.msg) + PayloadBytes(w.chunkSize, s))
  }

  // ---------------------------------------------------------------- the sender's own state

  /** A message is out. Both ends act on it: `Set Chunk Size` governs the chunks after it. */
  function Finish(env: Env, w: Wire, m: Message): Wire {
    var w' := w.(sent := w.sent + [m]);
    if m.typeId == 1 then
      if |m.body| < 4 then w'.(failed := true) else w'.(chunkSize := LoadBe32(m.body))
    else if m.typeId == 3 then w'.(failed := |m.body| < 4)
    else w'.(failed := env.rejects(w'.sent))
  }

  function Advance(env: Env, w: Wire, csid: nat, s: Sending): Wire
    requires s.sent <= |s.msg.body|
  {
    var sent := s.sent + Piece(w.chunkSize, s);
    var lane := LaneOf(w, csid);
    if sent < |s.msg.body| then
      w.(lanes := w.lanes[csid := Lane(Some(s.(sent := sent)), lane.previous)])
    else
      var p := Previous(s.msg.streamId, |s.msg.body|, s.msg.typeId, s.field, s.msg.timeStamp);
      var w' := w.(lanes := w.lanes[csid := Lane(None, Some(p))], streamId := s.msg.streamId);
      if s.msg.body == [] then w' else Finish(env, w', s.msg)
  }

  /** The other lanes are untouched, and this one keeps its invariant. */
  lemma AdvanceLanes(env: Env, w: Wire, csid: nat, s: Sending)
    requires GoodWire(w) && s.sent <= |s.msg.body| < TWO_24 && s.msg.csid == csid
    ensures GoodWire(Advance(env, w, csid, s))
    ensures forall c {:trigger LaneOf(Advance(env, w, csid, s), c)} :: c != csid ==>
              LaneOf(Advance(env, w, csid, s), c) == LaneOf(w, c)
  {
    var w' := Advance(env, w, csid, s);
    forall c
      ensures GoodLane(LaneOf(w', c), c) && (c != csid ==> LaneOf(w', c) == LaneOf(w, c))
    {
      assert GoodLane(LaneOf(w, c), c);
    }
  }

  ghost function Send(env: Env, w: Wire, c: Chunk): (w': Wire)
    requires GoodWire(w) && Legal(w, c)
    ensures GoodWire(w')
  {
    SendingForIsGood(w, c);
    AdvanceLanes(env, w, IdOf(c), SendingFor(w, c));
    Advance(env, w, IdOf(c), SendingFor(w, c))
  }

  ghost predicate LegalRun(env: Env, w: Wire, cs: seq<Chunk>)
    requires GoodWire(w)
    decreases |cs|
  {
    cs == [] || (Legal(w, cs[0]) && LegalRun(env, Send(env, w, cs[0]), cs[1..]))
  }

  ghost function SendAll(env: Env, w: Wire, cs: seq<Chunk>): (w': Wire)
    requires GoodWire(w) && LegalRun(env, w, cs)
    ensures GoodWire(w')
    decreases |cs|
  {
    if cs == [] then w else SendAll(env, Send(env, w, cs[0]), cs[1..])
  }

  ghost function EncodeAll(env: Env, w: Wire, cs: seq<Chunk>): seq<byte>
    requires GoodWire(w) && LegalRun(env, w, cs)
    decreases |cs|
  {
    if cs == [] then [] else Encode(w, cs[0]) + EncodeAll(env, Send(env, w, cs[0]), cs[1..])
  }

  // ---------------------------------------------------------------- receiver against sender

  /** The packet under assembly holds what has been sent of the message, and will be given
      the message's time whichever way that is encoded. */
  ghost predicate Assembling(p: Packet, s: Sending) {
    && p.ctx.streamId == s.msg.streamId
    && p.ctx.msgLength == |s.msg.body|
    && p.ctx.typeId == s.msg.typeId
    && p.ctx.tsDelta == s.field
    && TimeOf(p.ctx, s.stamp) == s.msg.timeStamp
    && (s.field != STAMP_ESCAPE ==> s.stamp == s.field)
    && s.sent <= |s.msg.body|
    && p.body == s.msg.body[..s.sent]
  }

  ghost predicate Remembers(c: Context, p: Previous) {
    && c.streamId == p.streamId
    && c.msgLength == p.length
    && c.typeId == p.typeId
    && c.tsDelta == p.field
    && c.timeStamp == p.timeStamp
  }

  ghost predicate LaneMatches(l: Lane, s: Slot) {
    && l.sending.Some? == s.now.Some?
    && (l.sending.Some? ==> Assembling(s.now.value, l.sending.value))
    && (l.previous.Some? ==> s.last.Some? && Remembers(s.last.value, l.previous.value))
  }

  ghost predicate Matches(w: Wire, r: Receiver) {
    && r.chunkSize == w.chunkSize
    && r.delivered == w.sent
    && r.failed == w.failed
    && r.streamId == w.streamId
    && forall c {:trigger LaneOf(w, c)} {:trigger SlotOf(r, c)} :: LaneMatches(LaneOf(w, c), SlotOf(r, c))
  }

  lemma BasicRoundTrip(fmt: nat, csid: nat, width: nat, tail: seq<byte>)
    requires fmt < 4 && FitsWidth(csid, width)
    ensures var data := BasicBytes(fmt, csid, width) + tail;
            data[0] / 64 == fmt && BasicHeader(data) == Some((csid, width - 1))
  {
  }

  /** Applying an encoded header sets exactly the fields its type carries. */
  lemma HeaderRoundTrip(c: Context, fmt: nat, field: uint24, msg: Message)
    requires fmt < 4 && |msg.body| < TWO_24
    ensures var c' := ApplyHeader(c, fmt, HeaderBytes(fmt, field, msg));
            && c'.isAbsStamp == (fmt == 0 || c.isAbsStamp)
            && c'.tsDelta == (if fmt < 3 then field else c.tsDelta)
            && c'.msgLength == (if fmt < 2 then |msg.body| else c.msgLength)
            && c'.typeId == (if fmt < 2 then msg.typeId else c.typeId)
            && c'.streamId == (if fmt == 0 then msg.streamId else c.streamId)
            && c'.timeStamp == c.timeStamp
  {
    hide LoadBe24, SetBe24, LoadLe32, SetLe32;
    var h := HeaderBytes(fmt, field, msg);
    if fmt < 3 {
      Be24RoundTrip(field, h[3..]);
      assert h == SetBe24(field) + h[3..];
    }
    if fmt < 2 {
      Be24RoundTrip(|msg.body|, h[6..]);
      assert h[3..] == SetBe24(|msg.body|) + h[6..];
    }
    if fmt == 0 {
      Word32RoundTrip(msg.streamId, []);
      assert h[7..] == SetLe32(msg.streamId) + [];
    }
  }

  /** `Matches`, except that `csid` may be about to start or take a piece. */
  ghost predicate MatchesBut(w: Wire, r: Receiver, csid: nat) {
    && r.chunkSize == w.chunkSize
    && r.delivered == w.sent
    && r.failed == w.failed
    && r.streamId == w.streamId
    && (forall c {:trigger LaneOf(w, c)} {:trigger SlotOf(r, c)} | c != csid :: LaneMatches(LaneOf(w, c), SlotOf(r, c)))
    && (LaneOf(w, csid).previous.Some? ==>
          SlotOf(r, csid).last.Some? && Remembers(SlotOf(r, csid).last.value, LaneOf(w, csid).previous.value))
  }

  /** Extended timestamp and payload are found where the sender put them. */
  lemma PayloadRoundTrip(env: Env, r: Receiver, csid: nat, p: Packet, s: Sending, tail: seq<byte>)
    requires |s.msg.body| < TWO_24 && Assembling(p, s)
    ensures var more := Piece(r.chunkSize, s);
            var q := Packet(p.ctx, s.msg.body[..s.sent + more]);
            StepPayload(env, r, csid, p, PayloadBytes(r.chunkSize, s) + tail)
            == Consumed(|PayloadBytes(r.chunkSize, s)|, Accept(env, r, csid, q, s.stamp))
  {
    var more := Piece(r.chunkSize, s);
    var piece := s.msg.body[s.sent..s.sent + more];
    assert p.body + piece == s.msg.body[..s.sent + more];
    PieceAgrees(r.chunkSize, p, s);
    PayloadOnEncoded(env, r, csid, p, s.stamp, piece, tail);
    assert PayloadBytes(r.chunkSize, s) + tail == ExtendedBytes(s.field, s.stamp) + (piece + tail);
  }

  lemma PieceAgrees(chunkSize: nat, p: Packet, s: Sending)
    requires |s.msg.body| < TWO_24 && Assembling(p, s)
    ensures PieceLength(chunkSize, p) == Piece(chunkSize, s)
  {
  }

  lemma PayloadOnEncoded(env: Env, r: Receiver, csid: nat, p: Packet, stamp: uint32, piece: seq<byte>, tail: seq<byte>)
    requires p.ctx.tsDelta < TWO_24 && (p.ctx.tsDelta != STAMP_ESCAPE ==> stamp == p.ctx.tsDelta)
    requires |piece| == PieceLength(r.chunkSize, p)
    ensures var ext := ExtendedBytes(p.ctx.tsDelta, stamp);
            StepPayload(env, r, csid, p, ext + (piece + tail))
            == Consumed(|ext| + |piece|, Accept(env, r, csid, p.(body := p.body + piece), stamp))
  {
    hide Accept, PieceLength, LoadBe32, SetBe32;
    var ext := ExtendedBytes(p.ctx.tsDelta, stamp);
    var data := ext + (piece + tail);
    if p.ctx.tsDelta == STAMP_ESCAPE {
      Word32RoundTrip(stamp, piece + tail);
    }
    MiddlePiece(ext, piece, tail);
  }

  lemma MiddlePiece(head: seq<byte>, piece: seq<byte>, tail: seq<byte>)
    ensures (head + (piece + tail))[|head|..|head| + |piece|] == piece
  {
  }

  /** Both ends treat a completed message alike. */
  lemma FinishMatchesHandle(env: Env, w: Wire, r: Receiver, m: Message)
    requires r.chunkSize == w.chunkSize && r.delivered == w.sent
    ensures var w', r' := Finish(env, w, m), HandleChunk(env, r, m);
            && r'.chunkSize == w'.chunkSize && r'.delivered == w'.sent
            && w'.lanes == w.lanes && r'.slots == r.slots && w'.streamId == w.streamId && r'.streamId == r.streamId
            && (r.failed == w.failed ==> r'.failed == w'.failed)
  {
  }

  lemma AcceptMatches(env: Env, w: Wire, r: Receiver, csid: nat, q: Packet, s: Sending)
    requires |s.msg.body| < TWO_24 && s.msg.csid == csid && s.sent <= |s.msg.body|
    requires MatchesBut(w, r, csid)
    requires Assembling(q, s.(sent := s.sent + Piece(w.chunkSize, s)))
    ensures Matches(Advance(env, w, csid, s), Accept(env, r, csid, q, s.stamp))
  {
    var w', r' := Advance(env, w, csid, s), Accept(env, r, csid, q, s.stamp);
    var sent := s.sent + Piece(w.chunkSize, s);
    assert |q.body| == sent;
    if sent < |s.msg.body| {
      assert LaneMatches(LaneOf(w', csid), SlotOf(r', csid));
    } else {
      assert q.body == s.msg.body;
      var ctx := q.ctx.(timeStamp := TimeOf(q.ctx, s.stamp));
      var p := Previous(s.msg.streamId, |s.msg.body|, s.msg.typeId, s.field, s.msg.timeStamp);
      assert Remembers(ctx, p);
      var w1 := w.(lanes := w.lanes[csid := Lane(None, Some(p))], streamId := s.msg.streamId);
      var r1 := r.(streamId := ctx.streamId, slots := r.slots[csid := Slot(None, Some(ctx))]);
      var m := Message(csid, ctx.typeId, ctx.streamId, ctx.timeStamp, q.body);
      assert m == s.msg;
      FinishMatchesHandle(env, w1, r1, m);
      assert LaneMatches(LaneOf(w', csid), SlotOf(r', csid));
    }
    forall c | c != csid
      ensures LaneMatches(LaneOf(w', c), SlotOf(r', c))
    {
      assert LaneOf(w', c) == LaneOf(w, c);
      assert SlotOf(r', c) == SlotOf(r, c);
    }
  }

  /** Noting the header of a chunk prepares the receiver for its payload. */
  lemma HeaderPrepares(env: Env, w: Wire, r: Receiver, c: Chunk)
    requires GoodWire(w) && Legal(w, c) && Matches(w, r)
    ensures var s := SendingFor(w, c);
            var p := Announced(env, r, IdOf(c), FmtOf(c), HeaderBytes(FmtOf(c), s.field, s.msg));
            Assembling(p, s) && MatchesBut(w, Note(r, IdOf(c), p), IdOf(c))
  {
    hide Assembling, HeaderBytes, Announced, Note, MatchesBut, LaneMatches;
    SendingForIsGood(w, c);
    var csid, s := IdOf(c), SendingFor(w, c);
    assert LaneMatches(LaneOf(w, csid), SlotOf(r, csid));
    HeaderAssembles(env, w, r, c);
    NoteKeepsOthers(w, r, csid, Announced(env, r, csid, FmtOf(c), HeaderBytes(FmtOf(c), s.field, s.msg)));
  }

  lemma HeaderAssembles(env: Env, w: Wire, r: Receiver, c: Chunk)
    requires GoodWire(w) && Legal(w, c) && LaneMatches(LaneOf(w, IdOf(c)), SlotOf(r, IdOf(c)))
    ensures var s := SendingFor(w, c);
            Assembling(Announced(env, r, IdOf(c), FmtOf(c), HeaderBytes(FmtOf(c), s.field, s.msg)), s)
  {
    hide ApplyHeader, HeaderBytes, GoodWire;
    SendingForIsGood(w, c);
    var s := SendingFor(w, c);
    HeaderRoundTrip(Current(env, SlotOf(r, IdOf(c)), IdOf(c)).ctx, FmtOf(c), s.field, s.msg);
  }

  lemma NoteKeepsOthers(w: Wire, r: Receiver, csid: nat, p: Packet)
    requires Matches(w, r)
    ensures MatchesBut(w, Note(r, csid, p), csid)
  {
    hide Assembling, Remembers;
    assert LaneMatches(LaneOf(w, csid), SlotOf(r, csid));
    forall k | k != csid
      ensures LaneMatches(LaneOf(w, k), SlotOf(Note(r, csid, p), k))
    {
      assert SlotOf(Note(r, csid, p), k) == SlotOf(r, k);
    }
  }

  /** The payload of the chunk, behind its announced header. */
  lemma PayloadStep(env: Env, w: Wire, r: Receiver, c: Chunk, tail: seq<byte>) returns (p: Packet, o: Outcome)
    requires GoodWire(w) && Legal(w, c) && Matches(w, r)
    ensures p == Announced(env, r, IdOf(c), FmtOf(c), HeaderBytes(FmtOf(c), SendingFor(w, c).field, SendingFor(w, c).msg))
    ensures SendingFor(w, c).sent <= |SendingFor(w, c).msg.body|
    ensures o == StepPayload(env, Note(r, IdOf(c), p), IdOf(c), p, PayloadBytes(w.chunkSize, SendingFor(w, c)) + tail)
    ensures o.Consumed? && o.n == |PayloadBytes(w.chunkSize, SendingFor(w, c))| && Matches(Send(env, w, c), o.r)
  {
    SendingForIsGood(w, c);
    var csid, s := IdOf(c), SendingFor(w, c);
    p := Announced(env, r, csid, FmtOf(c), HeaderBytes(FmtOf(c), s.field, s.msg));
    var r1 := Note(r, csid, p);
    HeaderPrepares(env, w, r, c);
    assert r1.chunkSize == w.chunkSize;
    var q := Packet(p.ctx, s.msg.body[..s.sent + Piece(w.chunkSize, s)]);
    o := Consumed(|PayloadBytes(w.chunkSize, s)|, Accept(env, r1, csid, q, s.stamp));
    PayloadRoundTrip(env, r1, csid, p, s, tail);
    AcceptMatches(env, w, r1, csid, q, s);
  }

  /** One chunk: whatever its header type, id width and place among the chunks of other
      streams, the receiver takes exactly its bytes and stays in step with the sender. */
  lemma ChunkStep(env: Env, w: Wire, r: Receiver, c: Chunk, tail: seq<byte>)
    requires GoodWire(w) && Legal(w, c) && Matches(w, r)
    ensures var data := Encode(w, c) + tail;
            && data != []
            && var o := Step(env, r, data);
            o.Consumed? && o.n == |Encode(w, c)| && Matches(Send(env, w, c), o.r)
  {
    hide Step, Send, Matches, StepPayload, Announced, Note, GoodWire, PayloadBytes, HeaderBytes, BasicBytes;
    var p, o := PayloadStep(env, w, r, c, tail);
    var s := SendingFor(w, c);
    var head, pay := HeaderBytes(FmtOf(c), s.field, s.msg), PayloadBytes(w.chunkSize, s);
    StepOnEncoded(env, r, FmtOf(c), IdOf(c), c.width, head, pay + tail);
    assert Encode(w, c) + tail == BasicBytes(FmtOf(c), IdOf(c), c.width) + (head + (pay + tail));
  }

  lemma StepOnEncoded(env: Env, r: Receiver, fmt: nat, csid: nat, width: nat, head: seq<byte>, rest: seq<byte>)
    requires fmt < 4 && FitsWidth(csid, width) && |head| == HeaderLength(fmt) - 1
    ensures var data := BasicBytes(fmt, csid, width) + (head + rest);
            var p := Announced(env, r, csid, fmt, head);
            Step(env, r, data) == Shift(width + |head|, StepPayload(env, Note(r, csid, p), csid, p, rest))
  {
    var data := BasicBytes(fmt, csid, width) + (head + rest);
    BasicRoundTrip(fmt, csid, width, head + rest);
    var start := width + |head|;
    assert data[width..start] == head;
    assert data[start..] == rest;
  }

  /** Main result: any legal run of chunks, interleaved in any way across chunk streams and
      through any changes of the chunk size, is taken to the last byte; the messages
      delivered are those sent, in the order of their last chunks. */
  lemma {:induction false} Reassembly(env: Env, w: Wire, r: Receiver, cs: seq<Chunk>)
    requires GoodWire(w) && LegalRun(env, w, cs) && Matches(w, r)
    ensures var (r', rest) := Split(env, r, EncodeAll(env, w, cs));
            Matches(SendAll(env, w, cs), r') && (rest == [])
    decreases |cs|
  {
    if cs != [] {
      var w' := Send(env, w, cs[0]);
      var tail := EncodeAll(env, w', cs[1..]);
      ChunkStep(env, w, r, cs[0], tail);
      var data := Encode(w, cs[0]) + tail;
      var o := Step(env, r, data);
      assert data[o.n..] == tail;
      Reassembly(env, w', o.r, cs[1..]);
    }
  }

  // ---------------------------------------------------------------- order on each chunk stream

  const FRESH := Wire(128, map[], [], false, 0)

  function OnStream(history: seq<Message>, csid: nat): seq<Message> {
    if history == [] then [] else
    var m := history[|history| - 1];
    OnStream(history[..|history| - 1], csid) + if m.csid == csid then [m] else []
  }

  /** The messages with a payload that were started on `csid`. */
  function Opened(cs: seq<Chunk>, csid: nat): seq<Message> {
    if cs == [] then [] else
    (if cs[0].Open? && cs[0].msg.csid == csid && cs[0].msg.body != [] then [cs[0].msg] else []) + Opened(cs[1..], csid)
  }

  function UnderWay(w: Wire, csid: nat): seq<Message> {
    if LaneOf(w, csid).sending.Some? then [LaneOf(w, csid).sending.value.msg] else []
  }

  lemma OnStreamSnoc(history: seq<Message>, m: Message, csid: nat)
    ensures OnStream(history + [m], csid) == OnStream(history, csid) + if m.csid == csid then [m] else []
  {
    assert (history + [m])[..|history|] == history;
  }

  lemma OpenedCons(c: Chunk, cs: seq<Chunk>, csid: nat)
    ensures Opened([c], csid) == if c.Open? && c.msg.csid == csid && c.msg.body != [] then [c.msg] else []
    ensures Opened([c] + cs, csid) == Opened([c], csid) + Opened(cs, csid)
  {
    assert [c][1..] == [] && ([c] + cs)[1..] == cs;
  }

  /** A piece leaves its message under way or, if it is the last one, moves it to "sent"; a
      message without a payload is neither. */
  lemma AdvanceKeepsOrder(env: Env, w: Wire, s: Sending, csid: nat)
    requires s.sent <= |s.msg.body|
    ensures var w' := Advance(env, w, s.msg.csid, s);
            OnStream(w'.sent, csid) + UnderWay(w', csid)
            == OnStream(w.sent, csid)
               + if csid != s.msg.csid then UnderWay(w, csid) else if s.msg.body == [] then [] else [s.msg]
  {
    hide OnStream;
    OnStreamSnoc(w.sent, s.msg, csid);
  }

  /** A chunk adds what it opens, and moves a finished message from "under way" to "sent". */
  lemma SendKeepsOrder(env: Env, w: Wire, c: Chunk, csid: nat)
    requires GoodWire(w) && Legal(w, c)
    ensures var w' := Send(env, w, c);
            OnStream(w'.sent, csid) + UnderWay(w', csid)
            == OnStream(w.sent, csid) + UnderWay(w, csid) + Opened([c], csid)
  {
    hide OnStream, Opened, Advance, GoodLane;
    SendingForIsGood(w, c);
    var s := SendingFor(w, c);
    AdvanceKeepsOrder(env, w, s, csid);
    OpenedCons(c, [], csid);
    UnderWayBefore(w, c, csid);
    Assoc(OnStream(w.sent, csid), UnderWay(w, csid), Opened([c], csid));
  }

  /** What the chunk continues was under way; what it opens was not. */
  lemma UnderWayBefore(w: Wire, c: Chunk, csid: nat)
    requires GoodWire(w) && Legal(w, c)
    ensures var m := SendingFor(w, c).msg;
            UnderWay(w, csid) + (if c.Open? && c.msg.csid == csid && c.msg.body != [] then [c.msg] else [])
            == if csid != m.csid then UnderWay(w, csid) else if m.body == [] then [] else [m]
  {
    SendingForIsGood(w, c);
    assert GoodLane(LaneOf(w, IdOf(c)), IdOf(c));
  }

  lemma {:induction false} SendAllKeepsOrder(env: Env, w: Wire, cs: seq<Chunk>, csid: nat)
    requires GoodWire(w) && LegalRun(env, w, cs)
    ensures var w' := SendAll(env, w, cs);
            OnStream(w'.sent, csid) + UnderWay(w', csid)
            == OnStream(w.sent, csid) + UnderWay(w, csid) + Opened(cs, csid)
    decreases |cs|
  {
    hide Send, GoodWire, Legal, OnStream, UnderWay, Opened;
    if cs == [] {
      NothingOpened(csid);
    } else {
      var w' := Send(env, w, cs[0]);
      SendKeepsOrder(env, w, cs[0], csid);
      SendAllKeepsOrder(env, w', cs[1..], csid);
      assert cs == [cs[0]] + cs[1..];
      OpenedCons(cs[0], cs[1..], csid);
      Assoc(OnStream(w.sent, csid) + UnderWay(w, csid), Opened([cs[0]], csid), Opened(cs[1..], csid));
    }
  }

  lemma NothingOpened(csid: nat)
    ensures Opened([], csid) == []
  {
  }

  /** Main result: on every chunk stream the messages come out whole and in the order they
      were opened; at most the last of them is still short, as a prefix of its payload. */
  lemma StreamsInOrder(env: Env, cs: seq<Chunk>, csid: nat)
    requires LegalRun(env, FRESH, cs)
    ensures var (r, rest) := Split(env, INITIAL, EncodeAll(env, FRESH, cs));
            var begun := Opened(cs, csid);
            var whole := OnStream(r.delivered, csid);
            && rest == []
            && whole <= begun
            && |begun| <= |whole| + 1
            && (|begun| == |whole| + 1 <==> SlotOf(r, csid).now.Some?)
            && (|begun| == |whole| + 1 ==> SlotOf(r, csid).now.value.body < begun[|whole|].body)
  {
    hide Split, SendAll, EncodeAll, LegalRun, Opened;
    Reassembly(env, FRESH, INITIAL, cs);
    SendAllKeepsOrder(env, FRESH, cs, csid);
    var w := SendAll(env, FRESH, cs);
    var r := Split(env, INITIAL, EncodeAll(env, FRESH, cs)).0;
    assert GoodLane(LaneOf(w, csid), csid);
    assert LaneMatches(LaneOf(w, csid), SlotOf(r, csid));
    assert OnStream(FRESH.sent, csid) + UnderWay(FRESH, csid) + Opened(cs, csid) == Opened(cs, csid);
  }
}
