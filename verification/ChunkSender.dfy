/** What `send_rtmp` and `set_chunk_size` put on the wire, and the round trip with the
    receiver of `ChunkStream`. */
module ChunkSender {
  import opened Bytes
  import opened ChunkStream
  import opened ChunkWire

  function FieldBytes(timeStamp: uint32): seq<byte> {
    SetBe24(if timeStamp >= STAMP_ESCAPE then STAMP_ESCAPE else timeStamp)
  }

  function StampBytes(timeStamp: uint32): seq<byte> {
    if timeStamp >= STAMP_ESCAPE then SetBe32(timeStamp) else []
  }

  predicate SendableId(csid: nat) {
    2 <= csid <= 63
  }

  /** The twelve bytes of a type 0 header with a one-byte stream id. */
  function FrameHeader(m: Message): (r: seq<byte>)
    requires SendableId(m.csid)
    ensures |r| == 12
  {
    [m.csid] + FieldBytes(m.timeStamp) + SetBe24(|m.body|) + [m.typeId] + SetLe32(m.streamId)
  }

  function NextOffset(m: Message, chunkSize: nat, offset: nat): (next: nat)
    requires chunkSize > 0 && offset < |m.body|
    ensures offset < next <= |m.body|
  {
    if chunkSize < |m.body| - offset then offset + chunkSize else |m.body|
  }

  /** What follows the header: pieces of the body from `offset` on, each but the first behind
      a type 3 header, and each behind its own extended timestamp. */
  function FrameBody(m: Message, chunkSize: nat, offset: nat): seq<byte>
    requires SendableId(m.csid) && chunkSize > 0 && offset <= |m.body|
    decreases |m.body| - offset
  {
    if offset == |m.body| then [] else
    var next := NextOffset(m, chunkSize, offset);
    (if offset > 0 then [192 + m.csid] else []) + StampBytes(m.timeStamp) + m.body[offset..next]
    + FrameBody(m, chunkSize, next)
  }

  function Frame(m: Message, chunkSize: nat): seq<byte>
    requires SendableId(m.csid) && chunkSize > 0
  {
    FrameHeader(m) + FrameBody(m, chunkSize, 0)
  }

  // ------------------------------------------------- a frame is a legal run of chunks

  ghost predicate Idle(w: Wire) {
    forall c {:trigger LaneOf(w, c)} :: LaneOf(w, c).sending.None?
  }

  /** A message the receiver can follow: `send_rtmp` writes no extended timestamp when there
      is no body to put it before, and only 24 bits of the length. */
  predicate Sendable(m: Message) {
    SendableId(m.csid) && |m.body| < TWO_24 && (m.body != [] || m.timeStamp < STAMP_ESCAPE)
  }

  function Continuations(m: Message, chunkSize: nat, offset: nat): seq<Chunk>
    requires chunkSize > 0 && offset <= |m.body|
    decreases |m.body| - offset
  {
    if offset == |m.body| then [] else [Continue(1, m.csid)] + Continuations(m, chunkSize, NextOffset(m, chunkSize, offset))
  }

  function FrameChunks(m: Message, chunkSize: nat): seq<Chunk>
    requires chunkSize > 0
  {
    [Open(1, 0, m)] + if m.body == [] then [] else Continuations(m, chunkSize, NextOffset(m, chunkSize, 0))
  }

  function PartSent(m: Message, offset: nat): Sending {
    Sending(m, if m.timeStamp >= STAMP_ESCAPE then STAMP_ESCAPE else m.timeStamp, m.timeStamp, offset)
  }

  /** The sender after the whole of `m`: its lane at rest, the others as they were. */
  ghost predicate After(env: Env, w: Wire, w': Wire, m: Message) {
    var f := if m.body == [] then w else Finish(env, w, m);
    && w'.sent == f.sent && w'.chunkSize == f.chunkSize && w'.failed == f.failed
    && LaneOf(w', m.csid).sending.None?
    && forall c {:trigger LaneOf(w', c)} :: c != m.csid ==> LaneOf(w', c) == LaneOf(w, c)
  }

  /** One piece: either the message is now out, or its lane has moved on. */
  lemma PieceMovesOn(env: Env, w: Wire, m: Message, offset: nat)
    requires GoodWire(w) && Sendable(m) && w.chunkSize > 0 && offset < |m.body|
    ensures var w' := Advance(env, w, m.csid, PartSent(m, offset));
            var next := NextOffset(m, w.chunkSize, offset);
            && PayloadBytes(w.chunkSize, PartSent(m, offset)) == StampBytes(m.timeStamp) + m.body[offset..next]
            && if next == |m.body| then After(env, w, w', m)
               else
                 && w' == w.(lanes := w'.lanes)
                 && LaneOf(w', m.csid).sending == Some(PartSent(m, next))
                 && forall c {:trigger LaneOf(w', c)} :: c != m.csid ==> LaneOf(w', c) == LaneOf(w, c)
  {
    AdvanceLanes(env, w, m.csid, PartSent(m, offset));
  }

  lemma {:induction false} ContinuationsRun(env: Env, w: Wire, m: Message, offset: nat)
    requires GoodWire(w) && Sendable(m) && w.chunkSize > 0 && !w.failed
    requires 0 < offset < |m.body| && LaneOf(w, m.csid).sending == Some(PartSent(m, offset))
    ensures var cs := Continuations(m, w.chunkSize, offset);
            && LegalRun(env, w, cs)
            && EncodeAll(env, w, cs) == FrameBody(m, w.chunkSize, offset)
            && After(env, w, SendAll(env, w, cs), m)
    decreases |m.body| - offset
  {
    hide Finish, GoodWire, PayloadBytes, Advance;
    var cs := Continuations(m, w.chunkSize, offset);
    var next := NextOffset(m, w.chunkSize, offset);
    var c := cs[0];
    assert Legal(w, c) && SendingFor(w, c) == PartSent(m, offset);
    PieceMovesOn(env, w, m, offset);
    var w' := Send(env, w, c);
    assert w' == Advance(env, w, m.csid, PartSent(m, offset));
    assert Encode(w, c) == [192 + m.csid] + StampBytes(m.timeStamp) + m.body[offset..next];
    assert cs[1..] == Continuations(m, w.chunkSize, next);
    if next < |m.body| {
      ContinuationsRun(env, w', m, next);
      assert Finish(env, w', m).sent == Finish(env, w, m).sent by { FinishIgnoresLanes(env, w, w', m); }
      FinishIgnoresLanes(env, w, w', m);
    }
    assert EncodeAll(env, w, cs) == Encode(w, c) + EncodeAll(env, w', cs[1..]);
  }

  lemma FinishIgnoresLanes(env: Env, w: Wire, w': Wire, m: Message)
    requires w' == w.(lanes := w'.lanes)
    ensures Finish(env, w', m) == Finish(env, w, m).(lanes := w'.lanes)
  {
  }

  /** The chunks behind the first one. */
  lemma FrameTail(env: Env, w: Wire, m: Message)
    requires GoodWire(w) && Sendable(m) && w.chunkSize > 0 && !w.failed && m.body != []
    requires Legal(w, Open(1, 0, m))
    ensures var w' := Send(env, w, Open(1, 0, m));
            var cs := FrameChunks(m, w.chunkSize)[1..];
            && LegalRun(env, w', cs)
            && After(env, w, SendAll(env, w', cs), m)
            && FrameBody(m, w.chunkSize, 0) == PayloadBytes(w.chunkSize, PartSent(m, 0)) + EncodeAll(env, w', cs)
  {
    hide Finish, GoodWire, PayloadBytes, Advance;
    var c := Open(1, 0, m);
    assert SendingFor(w, c) == PartSent(m, 0);
    var w' := Send(env, w, c);
    assert w' == Advance(env, w, m.csid, PartSent(m, 0));
    hide Send, SendingFor, Legal, Begin;
    var cs := FrameChunks(m, w.chunkSize)[1..];
    PieceMovesOn(env, w, m, 0);
    var next := NextOffset(m, w.chunkSize, 0);
    assert cs == Continuations(m, w.chunkSize, next);
    FirstPiece(m, w.chunkSize);
    if next < |m.body| {
      ContinuationsRun(env, w', m, next);
      FinishIgnoresLanes(env, w, w', m);
    } else {
      assert cs == [];
    }
  }

  lemma FirstPiece(m: Message, chunkSize: nat)
    requires SendableId(m.csid) && chunkSize > 0 && m.body != []
    ensures var next := NextOffset(m, chunkSize, 0);
            FrameBody(m, chunkSize, 0) == StampBytes(m.timeStamp) + m.body[0..next] + FrameBody(m, chunkSize, next)
  {
    assert [] + StampBytes(m.timeStamp) == StampBytes(m.timeStamp);
  }

  lemma FirstChunk(env: Env, w: Wire, c: Chunk, rest: seq<Chunk>)
    requires GoodWire(w) && Legal(w, c) && LegalRun(env, Send(env, w, c), rest)
    ensures var cs, w' := [c] + rest, Send(env, w, c);
            && LegalRun(env, w, cs)
            && EncodeAll(env, w, cs) == Encode(w, c) + EncodeAll(env, w', rest)
            && SendAll(env, w, cs) == SendAll(env, w', rest)
  {
    assert ([c] + rest)[1..] == rest;
  }

  /** `send_rtmp` sends a type 0 chunk and type 3 chunks of the reference sender. */
  lemma FrameRun(env: Env, w: Wire, m: Message)
    requires GoodWire(w) && Sendable(m) && w.chunkSize > 0 && !w.failed
    requires LaneOf(w, m.csid).sending.None?
    ensures var cs := FrameChunks(m, w.chunkSize);
            && LegalRun(env, w, cs)
            && EncodeAll(env, w, cs) == Frame(m, w.chunkSize)
            && After(env, w, SendAll(env, w, cs), m)
  {
    hide *;
    if m.body == [] {
      EmptyFrameRun(env, w, m);
    } else {
      FullFrameRun(env, w, m);
    }
  }

  lemma EmptyFrameRun(env: Env, w: Wire, m: Message)
    requires GoodWire(w) && Sendable(m) && w.chunkSize > 0 && !w.failed && m.body == []
    requires LaneOf(w, m.csid).sending.None?
    ensures var cs := FrameChunks(m, w.chunkSize);
            && LegalRun(env, w, cs)
            && EncodeAll(env, w, cs) == Frame(m, w.chunkSize)
            && After(env, w, SendAll(env, w, cs), m)
  {
    hide GoodWire, Encode;
    OpenFrame(env, w, m);
    assert FrameChunks(m, w.chunkSize)[1..] == [];
    EmptyFrameBody(m, w.chunkSize);
    AdvanceLanes(env, w, m.csid, PartSent(m, 0));
  }

  lemma FullFrameRun(env: Env, w: Wire, m: Message)
    requires GoodWire(w) && Sendable(m) && w.chunkSize > 0 && !w.failed && m.body != []
    requires LaneOf(w, m.csid).sending.None?
    ensures var cs := FrameChunks(m, w.chunkSize);
            && LegalRun(env, w, cs)
            && EncodeAll(env, w, cs) == Frame(m, w.chunkSize)
            && After(env, w, SendAll(env, w, cs), m)
  {
    hide After, Encode, EncodeAll, LegalRun, SendAll, Send, Legal, PayloadBytes, FrameHeader, FrameBody, Advance, GoodWire;
    var cs := FrameChunks(m, w.chunkSize);
    var c := Open(1, 0, m);
    OpenFrame(env, w, m);
    FrameTail(env, w, m);
    FirstChunk(env, w, c, cs[1..]);
    assert cs == [c] + cs[1..];
    assert Frame(m, w.chunkSize) == Encode(w, c) + EncodeAll(env, Send(env, w, c), cs[1..]);
  }

  /** The header of the frame is that of its first chunk. */
  lemma OpenFrame(env: Env, w: Wire, m: Message)
    requires GoodWire(w) && Sendable(m) && !w.failed && LaneOf(w, m.csid).sending.None?
    ensures var c := Open(1, 0, m);
            && Legal(w, c)
            && Encode(w, c) == FrameHeader(m) + PayloadBytes(w.chunkSize, PartSent(m, 0))
            && Send(env, w, c) == Advance(env, w, m.csid, PartSent(m, 0))
  {
    hide GoodWire, PayloadBytes, Advance;
    var c := Open(1, 0, m);
    assert SendingFor(w, c) == PartSent(m, 0);
    assert BasicBytes(0, m.csid, 1) + HeaderBytes(0, PartSent(m, 0).field, m) == FrameHeader(m);
  }

  lemma EmptyFrameBody(m: Message, chunkSize: nat)
    requires SendableId(m.csid) && chunkSize > 0 && m.body == []
    ensures FrameBody(m, chunkSize, 0) == []
  {
  }

  // -------------------------------------------------------------- round trip over runs

  /** What a session asks of its sender: `send_rtmp` of a message, or `set_chunk_size`. */
  datatype Request = Say(m: Message) | Resize(streamId: uint32, size: uint32)

  function SetChunkSizeMessage(streamId: uint32, size: uint32): Message {
    Message(2, MSG_SET_CHUNK, streamId, 0, SetBe32(size))
  }

  function MessageOf(q: Request): Message {
    if q.Say? then q.m else SetChunkSizeMessage(q.streamId, q.size)
  }

  function SizeAfter(chunkSize: nat, q: Request): nat {
    if q.Say? then chunkSize else q.size
  }

  predicate Fair(q: Request) {
    if q.Say? then
      Sendable(q.m) && q.m.typeId != MSG_SET_CHUNK && (q.m.typeId == MSG_ACK ==> |q.m.body| == 0 || |q.m.body| >= 4)
    else q.size > 0
  }

  predicate AllFair(qs: seq<Request>) {
    forall i | 0 <= i < |qs| :: Fair(qs[i])
  }

  function Transmit(chunkSize: nat, qs: seq<Request>): seq<byte>
    requires chunkSize > 0 && AllFair(qs)
    decreases |qs|
  {
    if qs == [] then [] else
    Frame(MessageOf(qs[0]), chunkSize) + Transmit(SizeAfter(chunkSize, qs[0]), qs[1..])
  }

  function FinalSize(chunkSize: nat, qs: seq<Request>): nat
    decreases |qs|
  {
    if qs == [] then chunkSize else FinalSize(SizeAfter(chunkSize, qs[0]), qs[1..])
  }

  /** The messages a run hands over: all but the empty ones. */
  function Spoken(qs: seq<Request>): seq<Message> {
    if qs == [] then [] else
    (if MessageOf(qs[0]).body == [] then [] else [MessageOf(qs[0])]) + Spoken(qs[1..])
  }

  ghost predicate Accepting(env: Env) {
    forall h :: !env.rejects(h)
  }

  /** The sender's own view of one request. */
  lemma FinishFair(env: Env, w: Wire, q: Request)
    requires Accepting(env) && Fair(q) && !w.failed
    ensures var m := MessageOf(q);
            var f := if m.body == [] then w else Finish(env, w, m);
            f.chunkSize == SizeAfter(w.chunkSize, q) && !f.failed && f.sent == w.sent + Spoken([q])
  {
    hide SetBe32, LoadBe32;
    assert [q][1..] == [];
    if q.Resize? {
      Word32RoundTrip(q.size, []);
      assert MessageOf(q).body == SetBe32(q.size) + [];
    }
  }

  /** One frame, taken whole, keeps the two ends in step. */
  lemma FrameRoundTrip(env: Env, w: Wire, r: Receiver, q: Request) returns (w': Wire, r': Receiver)
    requires Accepting(env) && Fair(q)
    requires GoodWire(w) && Idle(w) && Matches(w, r) && w.chunkSize > 0 && !w.failed
    ensures Sendable(MessageOf(q)) && Split(env, r, Frame(MessageOf(q), w.chunkSize)) == (r', [])
    ensures GoodWire(w') && Idle(w') && Matches(w', r') && w'.chunkSize == SizeAfter(w.chunkSize, q) > 0
    ensures !w'.failed && !r'.failed
    ensures w'.sent == w.sent + Spoken([q])
  {
    hide Split, SendAll, EncodeAll, LegalRun, Frame, FrameChunks, GoodWire, Matches, Finish, Spoken;
    var m := MessageOf(q);
    assert LaneOf(w, m.csid).sending.None?;
    FrameRun(env, w, m);
    var cs := FrameChunks(m, w.chunkSize);
    w' := SendAll(env, w, cs);
    Reassembly(env, w, r, cs);
    r' := Split(env, r, Frame(m, w.chunkSize)).0;
    FinishFair(env, w, q);
    forall c
      ensures LaneOf(w', c).sending.None?
    {
      if c != m.csid {
        assert LaneOf(w', c) == LaneOf(w, c);
      }
    }
  }

  /** The receiver takes all of `data`, hands over exactly `ms`, and ends with chunk size `size`. */
  ghost predicate Received(env: Env, r: Receiver, data: seq<byte>, ms: seq<Message>, size: nat) {
    var (r', rest) := Split(env, r, data);
    rest == [] && !r'.failed && r'.delivered == r.delivered + ms && r'.chunkSize == size
  }

  lemma ReceivedBehind(env: Env, r: Receiver, a: seq<byte>, r1: Receiver, m: seq<Message>, b: seq<byte>, ms: seq<Message>, size: nat)
    requires Split(env, r, a) == (r1, []) && !r1.failed && r1.delivered == r.delivered + m
    requires Received(env, r1, b, ms, size)
    ensures Received(env, r, a + b, m + ms, size)
  {
    hide Split;
    SplitConcat(env, r, a, b);
    assert [] + b == b;
    assert r.delivered + m + ms == r.delivered + (m + ms);
  }

  /** Main result: for any run of sends and chunk size changes, the receiver started with the
      sender's chunk size takes every byte, delivers exactly the messages sent, in order, and
      ends with the sender's chunk size. */
  lemma {:induction false} SendReceive(env: Env, w: Wire, r: Receiver, qs: seq<Request>)
    requires Accepting(env) && AllFair(qs)
    requires GoodWire(w) && Idle(w) && Matches(w, r) && w.chunkSize > 0 && !w.failed
    ensures Received(env, r, Transmit(w.chunkSize, qs), Spoken(qs), FinalSize(w.chunkSize, qs))
    decreases |qs|
  {
    assert r.delivered == w.sent && r.chunkSize == w.chunkSize && !r.failed;
    if qs == [] {
      assert Split(env, r, []) == (r, []);
    } else {
      TransmitCons(w.chunkSize, qs);
      var w', r1 := FrameRoundTrip(env, w, r, qs[0]);
      assert r1.delivered == w'.sent;
      hide *;
      SendReceive(env, w', r1, qs[1..]);
      ReceivedBehind(env, r, Frame(MessageOf(qs[0]), w.chunkSize), r1, Spoken([qs[0]]),
                     Transmit(w'.chunkSize, qs[1..]), Spoken(qs[1..]), FinalSize(w'.chunkSize, qs[1..]));
    }
  }

  lemma TransmitCons(chunkSize: nat, qs: seq<Request>)
    requires chunkSize > 0 && AllFair(qs) && qs != []
    ensures SizeAfter(chunkSize, qs[0]) > 0 && AllFair(qs[1..]) && Sendable(MessageOf(qs[0]))
    ensures Transmit(chunkSize, qs) == Frame(MessageOf(qs[0]), chunkSize) + Transmit(SizeAfter(chunkSize, qs[0]), qs[1..])
    ensures FinalSize(chunkSize, qs) == FinalSize(SizeAfter(chunkSize, qs[0]), qs[1..])
    ensures Spoken(qs) == Spoken([qs[0]]) + Spoken(qs[1..])
  {
    assert [qs[0]][1..] == [];
  }

  /** From a new connection, with both ends at the default chunk size. */
  lemma SendReceiveFromStart(env: Env, qs: seq<Request>)
    requires Accepting(env) && AllFair(qs)
    ensures Received(env, INITIAL, Transmit(128, qs), Spoken(qs), FinalSize(128, qs))
  {
    SendReceive(env, FRESH, INITIAL, qs);
  }

  /** `Sendable` is exact for bodies the length field can hold: a receiver in step takes the
      whole frame if and only if the frame does not leave out its extended timestamp. */
  lemma FrameTakenIff(env: Env, w: Wire, r: Receiver, m: Message)
    requires GoodWire(w) && Idle(w) && Matches(w, r) && w.chunkSize > 0 && !w.failed
    requires SendableId(m.csid) && |m.body| < TWO_24
    ensures Split(env, r, Frame(m, w.chunkSize)).1 == [] <==> m.body != [] || m.timeStamp < STAMP_ESCAPE
  {
    if Sendable(m) {
      assert LaneOf(w, m.csid).sending.None?;
      FrameRun(env, w, m);
      Reassembly(env, w, r, FrameChunks(m, w.chunkSize));
    } else {
      EmptyFrameBody(m, w.chunkSize);
      var data := Frame(m, w.chunkSize);
      assert data == FrameHeader(m);
      Be24RoundTrip(STAMP_ESCAPE, data[4..]);
      assert data[1..12] == SetBe24(STAMP_ESCAPE) + data[4..];
      assert Step(env, r, data).NeedMore?;
    }
  }

  // ------------------------------------------------- bodies the length field cannot hold

  /** The receiver takes every byte and hands over exactly `m`; a message without a body is
      taken without being handed over. */
  ghost predicate Arrives(env: Env, r: Receiver, data: seq<byte>, m: Message) {
    var (r', rest) := Split(env, r, data);
    rest == [] && r'.delivered == r.delivered + if m.body == [] then [] else [m]
  }

  /** The length that counts next on a chunk stream came from a 24-bit field. */
  predicate ShortLengths(s: Slot) {
    if s.now.Some? then s.now.value.ctx.msgLength < TWO_24 else s.last.Some? && s.last.value.msgLength < TWO_24
  }

  predicate OpensWithType0(data: seq<byte>, csid: nat) {
    2 <= csid < 64 && data != [] && data[0] == csid
  }

  /** No message of `csid` behind the first `n` has more than 2^24 - 1 bytes. */
  predicate ShortBehind(delivered: seq<Message>, n: nat, csid: nat) {
    forall i | n <= i < |delivered| && delivered[i].csid == csid :: |delivered[i].body| < TWO_24
  }

  lemma AcceptShort(env: Env, r: Receiver, id: nat, p: Packet, stamp: uint32, csid: nat)
    requires id == csid ==> p.ctx.msgLength < TWO_24
    requires id != csid ==> ShortLengths(SlotOf(r, csid))
    ensures var r' := Accept(env, r, id, p, stamp);
            ShortLengths(SlotOf(r', csid)) && r.delivered <= r'.delivered && ShortBehind(r'.delivered, |r.delivered|, csid)
  {
  }

  lemma PayloadShort(env: Env, r: Receiver, id: nat, p: Packet, data: seq<byte>, csid: nat)
    requires id == csid ==> p.ctx.msgLength < TWO_24
    requires ShortLengths(SlotOf(r, csid))
    ensures var r' := StepPayload(env, r, id, p, data).r;
            ShortLengths(SlotOf(r', csid)) && r.delivered <= r'.delivered && ShortBehind(r'.delivered, |r.delivered|, csid)
  {
    hide Accept, SlotOf, PieceLength, LoadBe32;
    var ext := if p.ctx.tsDelta == STAMP_ESCAPE then 4 else 0;
    var more := PieceLength(r.chunkSize, p);
    if |data| >= ext + more {
      var stamp := if ext == 4 then LoadBe32(data) else p.ctx.tsDelta;
      AcceptShort(env, r, id, p.(body := p.body + data[ext..ext + more]), stamp, csid);
    }
  }

  /** What a chunk header announces on `csid` is short if what is remembered is, or if the
      header carries a length itself. */
  lemma AnnouncedShort(env: Env, r: Receiver, id: nat, fmt: nat, h: seq<byte>, csid: nat)
    requires fmt < 4 && |h| == HeaderLength(fmt) - 1
    requires ShortLengths(SlotOf(r, csid)) || (id == csid && fmt == 0)
    ensures var p := Announced(env, r, id, fmt, h);
            (id == csid ==> p.ctx.msgLength < TWO_24) && ShortLengths(SlotOf(Note(r, id, p), csid))
  {
  }

  lemma StepShort(env: Env, r: Receiver, data: seq<byte>, csid: nat)
    requires data != []
    requires ShortLengths(SlotOf(r, csid)) || OpensWithType0(data, csid)
    ensures var o := Step(env, r, data);
            && r.delivered <= o.r.delivered && ShortBehind(o.r.delivered, |r.delivered|, csid)
            && (o.NeedMore? ==> o.r.delivered == r.delivered)
            && (o.Consumed? ==> ShortLengths(SlotOf(o.r, csid)))
  {
    hide StepPayload, Announced, ShortLengths;
    var fmt := data[0] / 64;
    if BasicHeader(data).Some? {
      var (id, off) := BasicHeader(data).value;
      var start := off + HeaderLength(fmt);
      if |data| >= start {
        var h := data[off + 1..start];
        AnnouncedShort(env, r, id, fmt, h, csid);
        NotedShort(env, r, id, Announced(env, r, id, fmt, h), data[start..], csid);
      }
    }
  }

  lemma NotedShort(env: Env, r: Receiver, id: nat, p: Packet, data: seq<byte>, csid: nat)
    requires id == csid ==> p.ctx.msgLength < TWO_24
    requires ShortLengths(SlotOf(Note(r, id, p), csid))
    ensures var o := StepPayload(env, Note(r, id, p), id, p, data);
            && ShortLengths(SlotOf(o.r, csid)) && r.delivered <= o.r.delivered && ShortBehind(o.r.delivered, |r.delivered|, csid)
            && (o.NeedMore? ==> o.r.delivered == r.delivered)
  {
    PayloadShort(env, Note(r, id, p), id, p, data, csid);
    hide StepPayload;
  }

  /** Whatever the bytes, a chunk stream never hands over more than a 24-bit length says. */
  lemma {:induction false} SplitShort(env: Env, r: Receiver, data: seq<byte>, csid: nat)
    requires ShortLengths(SlotOf(r, csid)) || OpensWithType0(data, csid)
    ensures var r' := Split(env, r, data).0;
            r.delivered <= r'.delivered && ShortBehind(r'.delivered, |r.delivered|, csid)
    decreases |data|
  {
    hide Step, ShortLengths;
    if !r.failed && data != [] {
      StepShort(env, r, data, csid);
      var o := Step(env, r, data);
      if o.Consumed? {
        SplitShort(env, o.r, data[o.n..], csid);
      }
    }
  }

  /** After a frame both ends have the same history. */
  lemma SentIsDelivered(env: Env, w: Wire, w': Wire, r: Receiver, r': Receiver, m: Message)
    requires Matches(w, r) && Matches(w', r') && After(env, w, w', m)
    ensures r'.delivered == r.delivered + if m.body == [] then [] else [m]
  {
    assert r.delivered + [] == r.delivered;
  }

  lemma NextIsShort(before: seq<Message>, after: seq<Message>, m: Message)
    requires ShortBehind(after, |before|, m.csid)
    ensures after == before + [m] ==> |m.body| < TWO_24
  {
    if after == before + [m] {
      assert after[|before|] == m;
    }
  }

  lemma FrameOpens(m: Message, chunkSize: nat)
    requires SendableId(m.csid) && chunkSize > 0
    ensures OpensWithType0(Frame(m, chunkSize), m.csid)
  {
    hide FrameBody, SetBe24, SetLe32;
  }

  /** Main result: `Sendable` is exact. Among all messages with an id the sender accepts,
      whatever the size of the body, a receiver in step takes the frame and hands over that
      message if and only if it is sendable. */
  lemma FrameArrivesIff(env: Env, w: Wire, r: Receiver, m: Message)
    requires GoodWire(w) && Idle(w) && Matches(w, r) && w.chunkSize > 0 && !w.failed
    requires SendableId(m.csid)
    ensures Arrives(env, r, Frame(m, w.chunkSize), m) <==> Sendable(m)
  {
    hide Split, GoodWire, Matches, Frame, FrameChunks, After, LegalRun, SendAll, EncodeAll;
    if Sendable(m) {
      assert LaneOf(w, m.csid).sending.None?;
      var cs := FrameChunks(m, w.chunkSize);
      FrameRun(env, w, m);
      Reassembly(env, w, r, cs);
      SentIsDelivered(env, w, SendAll(env, w, cs), r, Split(env, r, Frame(m, w.chunkSize)).0, m);
    } else if |m.body| < TWO_24 {
      FrameTakenIff(env, w, r, m);
    } else {
      FrameOpens(m, w.chunkSize);
      SplitShort(env, r, Frame(m, w.chunkSize), m.csid);
      NextIsShort(r.delivered, Split(env, r, Frame(m, w.chunkSize)).0.delivered, m);
    }
  }
}
