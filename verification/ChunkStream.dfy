/** The receiving half of an RTMP chunk stream: `rtmp_protocol::split_rtmp` and the
    part of `handle_chunk` that changes the stream. Chunk formats are those of
    sections 5.3.1.1 to 5.3.1.3 of the RTMP 1.0 specification. */
module ChunkStream {
  import opened Bytes

  const MSG_SET_CHUNK: byte := 1
  const MSG_ACK: byte := 3
  const MSG_SET_PEER_BW: byte := 6
  const DEFAULT_CHUNK_LENGTH := 128
  const STAMP_ESCAPE := 0xFF_FFFF

  /** What `handle_chunk` is given: a whole message. */
  datatype Message = Message(csid: nat, typeId: byte, streamId: uint32, timeStamp: uint32, body: seq<byte>)

  /** The fields `restore_context` copies from one packet of a chunk stream to the next. */
  datatype Context = Context(isAbsStamp: bool, streamId: uint32, msgLength: uint32, typeId: byte,
                             tsDelta: uint32, timeStamp: uint32)

  /** A packet under assembly. */
  datatype Packet = Packet(ctx: Context, body: seq<byte>)

  /** One entry of `chunked_data_map_`. */
  datatype Slot = Slot(now: Option<Packet>, last: Option<Context>)

  /** What the chunk parser cannot see. `junk(c)`: the uninitialised fields of the first
      packet of chunk stream c (no later packet of c keeps any). `rejects(h)`: whether the
      handler of the last message of the history h throws. */
  datatype Env = Env(junk: nat -> Context, rejects: seq<Message> -> bool)

  datatype Receiver = Receiver(chunkSize: nat, chunkStreamId: nat, streamId: uint32,
                               slots: map<nat, Slot>, delivered: seq<Message>, failed: bool)

  const INITIAL := Receiver(DEFAULT_CHUNK_LENGTH, 0, 0, map[], [], false)

  // ---------------------------------------------------------------- one chunk

  function HeaderLength(fmt: nat): nat
    requires fmt < 4
  {
    if fmt == 0 then 12 else if fmt == 1 then 8 else if fmt == 2 then 4 else 1
  }

  /** The chunk stream id and the number of extra id bytes, when they have all arrived. */
  function BasicHeader(data: seq<byte>): (r: Option<(nat, nat)>)
    requires |data| > 0
    ensures r.Some? ==> r.value.1 < |data|
  {
    var id := data[0] % 64;
    if id == 0 then
      if |data| < 2 then None else Some((64 + data[1] as nat, 1))
    else if id == 1 then
      if |data| < 3 then None else Some((64 + data[1] as nat + data[2] as nat * 0x100, 2))
    else Some((id, 0))
  }

  function SlotOf(r: Receiver, csid: nat): Slot {
    if csid in r.slots then r.slots[csid] else Slot(None, None)
  }

  /** The packet a chunk of `csid` is added to. */
  function Current(env: Env, slot: Slot, csid: nat): Packet {
    if slot.now.Some? then slot.now.value
    else if slot.last.Some? then Packet(slot.last.value.(isAbsStamp := false), [])
    else Packet(env.junk(csid).(isAbsStamp := false), [])
  }

  /** `h` is the message header: the 11, 7, 3 or 0 bytes after the basic header. */
  function ApplyHeader(c: Context, fmt: nat, h: seq<byte>): Context
    requires fmt < 4 && |h| == HeaderLength(fmt) - 1
  {
    if fmt == 0 then
      c.(isAbsStamp := true, tsDelta := LoadBe24(h), msgLength := LoadBe24(h[3..]), typeId := h[6],
         streamId := LoadLe32(h[7..]))
    else if fmt == 1 then
      c.(tsDelta := LoadBe24(h), msgLength := LoadBe24(h[3..]), typeId := h[6])
    else if fmt == 2 then
      c.(tsDelta := LoadBe24(h))
    else c
  }

  /** Payload bytes the next chunk carries. The subtraction is done in 64 bits and wraps
      when a header has made the message shorter than what was already received. */
  function PieceLength(chunkSize: nat, p: Packet): nat {
    var remain := (p.ctx.msgLength as int - |p.body|) % TWO_64;
    if chunkSize < remain then chunkSize else remain
  }

  /** `handle_chunk`, as far as the chunk stream can tell. */
  function HandleChunk(env: Env, r: Receiver, m: Message): Receiver {
    var r' := r.(delivered := r.delivered + [m]);
    if m.typeId == MSG_SET_CHUNK then
      if |m.body| < 4 then r'.(failed := true) else r'.(chunkSize := LoadBe32(m.body))
    else if m.typeId == MSG_ACK then
      r'.(failed := |m.body| < 4)
    else
      r'.(failed := env.rejects(r'.delivered))
  }

  /** Section 5.4.1 and section 5.4.3: of the messages that the stream itself acts on, type 1
      sets the chunk size, and types 1 and 3 need four bytes; every other one is left to its
      handler. */
  lemma ControlMessage(env: Env, r: Receiver, m: Message)
    ensures var r' := HandleChunk(env, r, m);
            && r'.delivered == r.delivered + [m] && r'.slots == r.slots && r'.streamId == r.streamId
            && r'.chunkSize == (if m.typeId == 1 && |m.body| >= 4
                                then m.body[0] as int * 0x100_0000 + m.body[1] as int * 0x1_0000 + m.body[2] as int * 0x100
                                     + m.body[3] as int
                                else r.chunkSize)
            && (m.typeId in {1, 3} && |m.body| < 4 ==> r'.failed)
            && (m.typeId in {1, 3} && |m.body| >= 4 && !r.failed ==> !r'.failed)
            && (m.typeId !in {1, 3} ==> r'.failed == env.rejects(r.delivered + [m]))
  {
  }

  function TimeOf(c: Context, stamp: uint32): uint32 {
    (stamp + (if c.isAbsStamp then 0 else c.timeStamp)) % TWO_32
  }

  /** The packet `p` has just received a piece; hand it over when it is whole. */
  function Accept(env: Env, r: Receiver, csid: nat, p: Packet, stamp: uint32): Receiver {
    var last := SlotOf(r, csid).last;
    if p.ctx.msgLength == |p.body| then
      var ctx := p.ctx.(timeStamp := TimeOf(p.ctx, stamp));
      var r' := r.(streamId := ctx.streamId, slots := r.slots[csid := Slot(None, Some(ctx))]);
      if ctx.msgLength > 0 then
        HandleChunk(env, r', Message(csid, ctx.typeId, ctx.streamId, ctx.timeStamp, p.body))
      else r'
    else
      r.(slots := r.slots[csid := Slot(Some(p), last)])
  }

  /** One round of the loop: either the chunk is not all there, and only its header has been
      noted, or `n` bytes were used. */
  datatype Outcome = NeedMore(r: Receiver) | Consumed(n: nat, r: Receiver)

  /** The bytes behind the message header: extended timestamp, if the header announced one,
      and payload. `r` has noted `p` as the packet under assembly. */
  function StepPayload(env: Env, r: Receiver, csid: nat, p: Packet, data: seq<byte>): (o: Outcome)
    ensures if o.NeedMore? then o.r == r else o.n <= |data|
  {
    var ext := if p.ctx.tsDelta == STAMP_ESCAPE then 4 else 0;
    if |data| < ext then NeedMore(r) else
    var stamp := if ext == 4 then LoadBe32(data) else p.ctx.tsDelta;
    var more := PieceLength(r.chunkSize, p);
    if |data| < ext + more then NeedMore(r) else
    Consumed(ext + more, Accept(env, r, csid, p.(body := p.body + data[ext..ext + more]), stamp))
  }

  /** The packet under assembly once the header `h` has been applied. */
  function Announced(env: Env, r: Receiver, csid: nat, fmt: nat, h: seq<byte>): Packet
    requires fmt < 4 && |h| == HeaderLength(fmt) - 1
  {
    var cur := Current(env, SlotOf(r, csid), csid);
    cur.(ctx := ApplyHeader(cur.ctx, fmt, h))
  }

  function Note(r: Receiver, csid: nat, p: Packet): Receiver {
    r.(chunkStreamId := csid, slots := r.slots[csid := SlotOf(r, csid).(now := Some(p))])
  }

  function Shift(k: nat, o: Outcome): Outcome {
    if o.NeedMore? then o else Consumed(k + o.n, o.r)
  }

  function Step(env: Env, r: Receiver, data: seq<byte>): (o: Outcome)
    requires |data| > 0
    ensures o.Consumed? ==> 0 < o.n <= |data|
  {
    var fmt := data[0] / 64;
    match BasicHeader(data)
    case None => NeedMore(r.(chunkStreamId := data[0] % 64))
    case Some((csid, off)) =>
      var start := off + HeaderLength(fmt);
      if |data| < start then NeedMore(r.(chunkStreamId := csid)) else
      var p := Announced(env, r, csid, fmt, data[off + 1..start]);
      Shift(start, StepPayload(env, Note(r, csid, p), csid, p, data[start..]))
  }

  /** The whole loop: the receiver afterwards, and the bytes not used. */
  function Split(env: Env, r: Receiver, data: seq<byte>): (Receiver, seq<byte>)
    decreases |data|
  {
    if r.failed || data == [] then (r, data) else
    match Step(env, r, data)
    case NeedMore(r') => (r', data)
    case Consumed(n, r') => Split(env, r', data[n..])
  }

  // ------------------------------------------------- fragmentation independence

  lemma PayloadIgnoresTail(env: Env, r: Receiver, csid: nat, p: Packet, a: seq<byte>, b: seq<byte>)
    requires StepPayload(env, r, csid, p, a).Consumed?
    ensures StepPayload(env, r, csid, p, a + b) == StepPayload(env, r, csid, p, a)
  {
    var ext := if p.ctx.tsDelta == STAMP_ESCAPE then 4 else 0;
    var more := PieceLength(r.chunkSize, p);
    assert (a + b)[ext..ext + more] == a[ext..ext + more];
  }

  /** A chunk that is all there is taken the same way whatever follows it. */
  lemma StepIgnoresTail(env: Env, r: Receiver, a: seq<byte>, b: seq<byte>)
    requires |a| > 0 && Step(env, r, a).Consumed?
    ensures Step(env, r, a + b) == Step(env, r, a)
  {
    hide StepPayload, Note, Announced;
    var fmt := a[0] / 64;
    var (csid, off) := BasicHeader(a).value;
    var start := off + HeaderLength(fmt);
    assert (a + b)[off + 1..start] == a[off + 1..start];
    assert (a + b)[start..] == a[start..] + b;
    var p := Announced(env, r, csid, fmt, a[off + 1..start]);
    PayloadIgnoresTail(env, Note(r, csid, p), csid, p, a[start..], b);
  }

  /** Announcing a chunk twice is announcing it once. */
  lemma AnnounceTwice(env: Env, r: Receiver, csid: nat, fmt: nat, h: seq<byte>)
    requires fmt < 4 && |h| == HeaderLength(fmt) - 1
    ensures var p := Announced(env, r, csid, fmt, h);
            Announced(env, Note(r, csid, p), csid, fmt, h) == p && Note(Note(r, csid, p), csid, p) == Note(r, csid, p)
  {
    var p := Announced(env, r, csid, fmt, h);
    var slot := SlotOf(r, csid).(now := Some(p));
    assert SlotOf(Note(r, csid, p), csid) == slot;
    assert r.slots[csid := slot][csid := slot] == r.slots[csid := slot];
  }

  /** Parsing a chunk again after a first, incomplete try changes nothing: the try only
      notes what it will note again. */
  lemma StepResumes(env: Env, r: Receiver, a: seq<byte>, b: seq<byte>)
    requires |a| > 0 && Step(env, r, a).NeedMore?
    ensures Step(env, Step(env, r, a).r, a + b) == Step(env, r, a + b)
  {
    hide StepPayload;
    var fmt := a[0] / 64;
    var r' := Step(env, r, a).r;
    if BasicHeader(a).None? {
      StepForgetsStreamId(env, r, r'.chunkStreamId, a + b);
    } else {
      var (csid, off) := BasicHeader(a).value;
      assert BasicHeader(a + b) == BasicHeader(a);
      var start := off + HeaderLength(fmt);
      if |a| < start {
        StepForgetsStreamId(env, r, csid, a + b);
      } else {
        var h := a[off + 1..start];
        assert (a + b)[off + 1..start] == h;
        AnnounceTwice(env, r, csid, fmt, h);
      }
    }
  }

  /** `chunk_stream_id_` is written by every round before it is read. */
  lemma StepForgetsStreamId(env: Env, r: Receiver, id: nat, data: seq<byte>)
    requires |data| > 0
    ensures Step(env, r.(chunkStreamId := id), data) == Step(env, r, data)
  {
    if BasicHeader(data).Some? {
      var (csid, off) := BasicHeader(data).value;
      var start := off + HeaderLength(data[0] / 64);
      if |data| >= start {
        var p := Announced(env, r, csid, data[0] / 64, data[off + 1..start]);
        assert Announced(env, r.(chunkStreamId := id), csid, data[0] / 64, data[off + 1..start]) == p;
      }
    }
  }

  /** Splitting `a` and then what is left of it with `b` behind is splitting `a + b`. */
  lemma {:induction false} SplitConcat(env: Env, r: Receiver, a: seq<byte>, b: seq<byte>)
    ensures var (r', rest) := Split(env, r, a);
            if r'.failed then Split(env, r, a + b).0 == r'
            else Split(env, r', rest + b) == Split(env, r, a + b)
    decreases |a|
  {
    if r.failed {
    } else if a == [] {
      assert a + b == b;
    } else {
      match Step(env, r, a)
      case Consumed(n, r') =>
        StepIgnoresTail(env, r, a, b);
        assert (a + b)[n..] == a[n..] + b;
        SplitConcat(env, r', a[n..], b);
      case NeedMore(r') =>
        StepResumes(env, r, a, b);
        NeedMoreKeepsStatus(env, r, a);
    }
  }

  lemma NeedMoreKeepsStatus(env: Env, r: Receiver, a: seq<byte>)
    requires |a| > 0 && Step(env, r, a).NeedMore?
    ensures Step(env, r, a).r.failed == r.failed && Step(env, r, a).r.delivered == r.delivered
  {
  }

  /** What is left after the loop is an incomplete chunk: running the loop again on it is idle. */
  lemma SplitIdempotent(env: Env, r: Receiver, a: seq<byte>)
    ensures var (r', rest) := Split(env, r, a);
            !r'.failed ==> Split(env, r', rest) == (r', rest)
  {
    SplitConcat(env, r, a, []);
    assert a + [] == a;
    var (r', rest) := Split(env, r, a);
    assert rest + [] == rest;
  }

  function Joined(cuts: seq<seq<byte>>): seq<byte> {
    if cuts == [] then [] else cuts[0] + Joined(cuts[1..])
  }

  /** A connection: every read is put behind the bytes left over and the loop is run. */
  function Feed(env: Env, r: Receiver, buf: seq<byte>, cuts: seq<seq<byte>>): (Receiver, seq<byte>)
    decreases |cuts|
  {
    if r.failed || cuts == [] then (r, buf) else
    var (r', rest) := Split(env, r, buf + cuts[0]);
    Feed(env, r', rest, cuts[1..])
  }

  /** Main result: how the bytes were cut into reads does not matter. Contexts, partial
      bodies, deliveries and (unless a handler threw) leftover bytes are those of one read. */
  lemma {:induction false} FragmentationIndependence(env: Env, r: Receiver, buf: seq<byte>, cuts: seq<seq<byte>>)
    requires Split(env, r, buf) == (r, buf)
    ensures Feed(env, r, buf, cuts).0 == Split(env, r, buf + Joined(cuts)).0
    ensures !Feed(env, r, buf, cuts).0.failed ==> Feed(env, r, buf, cuts) == Split(env, r, buf + Joined(cuts))
    decreases |cuts|
  {
    if cuts == [] {
      assert buf + Joined(cuts) == buf;
    } else if !r.failed {
      var (r', rest) := Split(env, r, buf + cuts[0]);
      var behind := Joined(cuts[1..]);
      assert Feed(env, r, buf, cuts) == Feed(env, r', rest, cuts[1..]);
      assert Joined(cuts) == cuts[0] + behind;
      assert (buf + cuts[0]) + behind == buf + Joined(cuts);
      SplitConcat(env, r, buf + cuts[0], behind);
      if !r'.failed {
        SplitIdempotent(env, r, buf + cuts[0]);
        FragmentationIndependence(env, r', rest, cuts[1..]);
      }
    }
  }
}
