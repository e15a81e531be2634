/** `rtmp_protocol`: handshake, chunk receiver and chunk sender of one session. */
module RtmpProtocols {
  import opened Bytes
  import opened FlatBuffers
  import opened ChunkStream
  import opened ChunkSender
  import opened ChunkWire

  const C1_SIZE := 1536
  const CHUNK_NETWORK := 2
  const RTMP_VERSION: byte := 3

  /** `next_step_func_`. */
  datatype Phase = AwaitC0C1 | AwaitC2 | Chunks

  datatype Connection = Connection(phase: Phase, r: Receiver)

  // ------------------------------------------------------------ one read, as a function

  /** What a read does to the session and to the buffered bytes. Only one handshake step is
      taken per read, even when the buffer holds more. */
  function OnRead(env: Env, c: Connection, data: seq<byte>): (Connection, seq<byte>) {
    match c.phase
    case AwaitC0C1 =>
      if |data| < 1 + C1_SIZE then (c, data)
      else if data[0] != RTMP_VERSION then (c.(r := c.r.(failed := true)), data)
      else (c.(phase := AwaitC2), data[1 + C1_SIZE..])
    case AwaitC2 =>
      if |data| < C1_SIZE then (c, data) else
      var (r, rest) := Split(env, c.r, data[C1_SIZE..]);
      (Connection(Chunks, r), rest)
    case Chunks =>
      var (r, rest) := Split(env, c.r, data);
      (c.(r := r), rest)
  }

  function Serve(env: Env, c: Connection, buf: seq<byte>, cuts: seq<seq<byte>>): (Connection, seq<byte>)
    decreases |cuts|
  {
    if c.r.failed || cuts == [] then (c, buf) else
    var (c', rest) := OnRead(env, c, buf + cuts[0]);
    Serve(env, c', rest, cuts[1..])
  }

  // ------------------------------------------------- when the handshake gets through

  const START := Connection(AwaitC0C1, INITIAL)

  lemma {:induction false} ServeChunks(env: Env, r: Receiver, buf: seq<byte>, cuts: seq<seq<byte>>)
    ensures Serve(env, Connection(Chunks, r), buf, cuts) == (Connection(Chunks, Feed(env, r, buf, cuts).0), Feed(env, r, buf, cuts).1)
    decreases |cuts|
  {
    if !r.failed && cuts != [] {
      var (r', rest) := Split(env, r, buf + cuts[0]);
      ServeChunks(env, r', rest, cuts[1..]);
    }
  }

  /** Waiting for C2: the step is taken at the first read that completes it, and everything
      behind C2 is then split, however it was cut. */
  lemma {:induction false} ServeC2(env: Env, buf: seq<byte>, cuts: seq<seq<byte>>)
    ensures var all := buf + Joined(cuts);
            var (c, rest) := Serve(env, Connection(AwaitC2, INITIAL), buf, cuts);
            if cuts != [] && |all| >= C1_SIZE then
              && c == Connection(Chunks, Split(env, INITIAL, all[C1_SIZE..]).0)
              && (!c.r.failed ==> rest == Split(env, INITIAL, all[C1_SIZE..]).1)
            else c == Connection(AwaitC2, INITIAL) && rest == all
    decreases |cuts|
  {
    if cuts == [] {
      assert buf + Joined(cuts) == buf;
    } else {
      var data, behind := buf + cuts[0], Joined(cuts[1..]);
      assert Joined(cuts) == cuts[0] + behind;
      assert buf + Joined(cuts) == data + behind;
      if |data| < C1_SIZE {
        ServeC2(env, data, cuts[1..]);
        assert cuts[1..] == [] ==> behind == [];
      } else {
        C2ThenChunks(env, data, cuts[1..]);
      }
    }
  }

  lemma C2ThenChunks(env: Env, data: seq<byte>, cuts: seq<seq<byte>>)
    requires |data| >= C1_SIZE
    ensures var (r, rest) := Split(env, INITIAL, data[C1_SIZE..]);
            var (c, rest') := Serve(env, Connection(Chunks, r), rest, cuts);
            var whole := Split(env, INITIAL, (data + Joined(cuts))[C1_SIZE..]);
            c == Connection(Chunks, whole.0) && (!c.r.failed ==> rest' == whole.1)
  {
    hide Split, Feed, Serve;
    var first := data[C1_SIZE..];
    var (r, rest) := Split(env, INITIAL, first);
    ServeChunks(env, r, rest, cuts);
    SplitConcat(env, INITIAL, first, Joined(cuts));
    assert (data + Joined(cuts))[C1_SIZE..] == first + Joined(cuts);
    FeedAfterSplit(env, INITIAL, first, cuts);
  }

  lemma FeedAfterSplit(env: Env, r: Receiver, first: seq<byte>, cuts: seq<seq<byte>>)
    ensures var (r', rest) := Split(env, r, first);
            var (r'', rest') := Feed(env, r', rest, cuts);
            var whole := Split(env, r, first + Joined(cuts));
            r'' == whole.0 && (!r''.failed ==> rest' == whole.1)
  {
    hide Split;
    var (r', rest) := Split(env, r, first);
    SplitConcat(env, r, first, Joined(cuts));
    if !r'.failed {
      SplitIdempotent(env, r, first);
      FragmentationIndependence(env, r', rest, cuts);
    }
  }

  function AllButLast(cuts: seq<seq<byte>>): seq<seq<byte>> {
    if cuts == [] then [] else cuts[..|cuts| - 1]
  }

  /** Main result: whether the session gets past the handshake depends on the cut in one way
      only: C0 and C1 must be complete before the last read. When it does get past it, its
      state is that of splitting all the bytes behind the handshake at once. */
  lemma HandshakeThenChunks(env: Env, cuts: seq<seq<byte>>)
    ensures var all := Joined(cuts);
            var (c, rest) := Serve(env, START, [], cuts);
            && (c.phase == Chunks <==> |all| >= 3073 && all[0] == 3 && |Joined(AllButLast(cuts))| >= 1537)
            && (c.phase == Chunks ==>
                  && c.r == Split(env, INITIAL, all[3073..]).0
                  && (!c.r.failed ==> rest == Split(env, INITIAL, all[3073..]).1))
            && (c.phase != Chunks ==> c.r == INITIAL.(failed := |all| >= 1537 && all[0] != 3))
  {
    hide Split;
    assert [] + Joined(cuts) == Joined(cuts);
    assert [] + Joined(AllButLast(cuts)) == Joined(AllButLast(cuts));
    if cuts != [] && Joined(cuts) != [] && Joined(cuts)[0] == 3 {
      ServeC0C1(env, [], cuts);
    } else {
      ServeNoC0C1(env, [], cuts);
    }
  }

  /** Another version number, or no byte at all: the session waits for C1, and then throws. */
  lemma {:induction false} ServeNoC0C1(env: Env, buf: seq<byte>, cuts: seq<seq<byte>>)
    requires |buf| < 1 + C1_SIZE
    requires buf + Joined(cuts) != [] ==> (buf + Joined(cuts))[0] != RTMP_VERSION
    ensures var all := buf + Joined(cuts);
            Serve(env, START, buf, cuts).0 == START.(r := INITIAL.(failed := |all| >= 1 + C1_SIZE))
    decreases |cuts|
  {
    hide Split;
    if cuts == [] {
      assert buf + Joined(cuts) == buf;
    } else {
      var data := buf + cuts[0];
      assert buf + Joined(cuts) == data + Joined(cuts[1..]);
      if |data| < 1 + C1_SIZE {
        ServeNoC0C1(env, data, cuts[1..]);
      } else {
        assert data[0] == (buf + Joined(cuts))[0];
      }
    }
  }

  lemma {:induction false} ServeC0C1(env: Env, buf: seq<byte>, cuts: seq<seq<byte>>)
    requires |buf| < 1 + C1_SIZE
    requires cuts != []
    requires buf + Joined(cuts) != [] && (buf + Joined(cuts))[0] == RTMP_VERSION
    ensures var all := buf + Joined(cuts);
            var (c, rest) := Serve(env, START, buf, cuts);
            && (c.phase == Chunks <==>
                  |all| >= 1 + 2 * C1_SIZE && |buf + Joined(AllButLast(cuts))| >= 1 + C1_SIZE)
            && (c.phase == Chunks ==>
                  && c.r == Split(env, INITIAL, all[1 + 2 * C1_SIZE..]).0
                  && (!c.r.failed ==> rest == Split(env, INITIAL, all[1 + 2 * C1_SIZE..]).1))
            && (c.phase != Chunks ==> c.r == INITIAL)
    decreases |cuts|
  {
    hide Split;
    var data, behind := buf + cuts[0], Joined(cuts[1..]);
    assert Joined(cuts) == cuts[0] + behind;
    var all := buf + Joined(cuts);
    assert all == data + behind;
    AllButLastJoined(buf, cuts);
    if |data| < 1 + C1_SIZE {
      if cuts[1..] != [] {
        ServeC0C1(env, data, cuts[1..]);
      }
    } else {
      assert data[0] == all[0];
      var rest := data[1 + C1_SIZE..];
      ServeC2(env, rest, cuts[1..]);
      assert rest + behind == all[1 + C1_SIZE..];
      assert |all| >= 1 + 2 * C1_SIZE ==> all[1 + C1_SIZE..][C1_SIZE..] == all[1 + 2 * C1_SIZE..];
    }
  }

  /** Bytes that have arrived before the last read, seen from one read later. */
  lemma AllButLastJoined(buf: seq<byte>, cuts: seq<seq<byte>>)
    requires cuts != []
    ensures cuts[1..] == [] ==> buf + Joined(AllButLast(cuts)) == buf
    ensures cuts[1..] != [] ==>
              buf + Joined(AllButLast(cuts)) == (buf + cuts[0]) + Joined(AllButLast(cuts[1..]))
  {
    if cuts[1..] != [] {
      var front := AllButLast(cuts);
      assert front[0] == cuts[0] && front[1..] == AllButLast(cuts[1..]);
      assert Joined(front) == cuts[0] + Joined(AllButLast(cuts[1..]));
    }
  }

  /** The same bytes in one read leave the session waiting for C2. */
  lemma OneReadStalls(env: Env, all: seq<byte>)
    requires |all| >= 1 + 2 * C1_SIZE && all[0] == RTMP_VERSION
    ensures Serve(env, START, [], [all]).0.phase == AwaitC2
    ensures Serve(env, START, [], [all[..1 + C1_SIZE], all[1 + C1_SIZE..]]).0.phase == Chunks
  {
    var cut := [all[..1 + C1_SIZE], all[1 + C1_SIZE..]];
    assert [] + all == all;
    assert [] + cut[0] == all[..1 + C1_SIZE];
    assert cut[1..] == [all[1 + C1_SIZE..]];
    assert (all[..1 + C1_SIZE])[1 + C1_SIZE..] == [];
    ServeC2(env, [], cut[1..]);
    assert [] + Joined(cut[1..]) == all[1 + C1_SIZE..] + [];
  }

  // ---------------------------------------------------------------- the session object

  lemma NoteSetsStreamId(env: Env, r: Receiver, csid: nat, fmt: nat, h: seq<byte>, p: Packet)
    requires fmt < 4 && |h| == HeaderLength(fmt) - 1
    ensures Announced(env, r.(chunkStreamId := csid), csid, fmt, h) == Announced(env, r, csid, fmt, h)
    ensures Note(r.(chunkStreamId := csid), csid, p) == Note(r, csid, p)
  {
  }

  class RtmpProtocol {
    const env: Env

    var phase: Phase
    var chunkStreamId: nat
    var msgStreamId: uint32
    var chunkSizeIn: nat
    var chunkSizeOut: nat
    var chunkedData: map<nat, Slot>
    var bytesSent: nat

    // What has left the object: messages to the handlers, bytes to the socket, an exception.
    var delivered: seq<Message>
    var sent: seq<byte>
    var failed: bool

    ghost function Receiving(): Receiver
      reads this
    {
      Receiver(chunkSizeIn, chunkStreamId, msgStreamId, chunkedData, delivered, failed)
    }

    constructor (env: Env)
      ensures this.env == env
      ensures Connection(phase, Receiving()) == START
      ensures chunkSizeOut == DEFAULT_CHUNK_LENGTH && bytesSent == 0 && sent == []
    {
      this.env := env;
      phase := AwaitC0C1;
      chunkStreamId, msgStreamId := 0, 0;
      chunkSizeIn, chunkSizeOut := DEFAULT_CHUNK_LENGTH, DEFAULT_CHUNK_LENGTH;
      chunkedData, bytesSent := map[], 0;
      delivered, sent, failed := [], [], false;
    }

    // -------------------------------------------------------------- sending

    /** Acknowledgement windows are never set, so nothing follows the frame. */
    method SendRtmp(typeId: byte, streamId: uint32, data: seq<byte>, timeStamp: uint32, csid: int) returns (ok: bool)
      requires chunkSizeOut > 0
      modifies this`sent, this`bytesSent
      ensures ok == (2 <= csid <= 63)
      ensures ok ==> var frame := Frame(Message(csid, typeId, streamId, timeStamp, data), chunkSizeOut);
                     sent == old(sent) + frame && bytesSent == (old(bytesSent) + |frame| % TWO_32) % TWO_64
      ensures !ok ==> sent == old(sent) && bytesSent == old(bytesSent)
    {
      hide Frame, FrameHeader, FrameBody, SetBe24, SetBe32, SetLe32;
      if csid < 2 || csid > 63 {
        return false;
      }
      ghost var m := Message(csid, typeId, streamId, timeStamp, data);
      ghost var frame := Frame(m, chunkSizeOut);
      var hasExtended := timeStamp >= STAMP_ESCAPE;
      var header := [csid] + SetBe24(if hasExtended then STAMP_ESCAPE else timeStamp) + SetBe24(|data|)
                    + [typeId] + SetLe32(streamId);
      FrameParts(m, chunkSizeOut, header);
      Assoc(sent, header, FrameBody(m, chunkSizeOut, 0));
      sent := sent + header;
      var extended := if hasExtended then SetBe32(timeStamp) else [];
      var offset, totalSize := 0, 12;
      while offset < |data|
        invariant offset <= |data|
        invariant sent + FrameBody(m, chunkSizeOut, offset) == old(sent) + frame
        invariant |sent| == |old(sent)| + totalSize
        invariant bytesSent == old(bytesSent)
      {
        ghost var before := sent;
        var chunkSize := if chunkSizeOut < |data| - offset then chunkSizeOut else |data| - offset;
        ghost var chunk := (if offset > 0 then [192 + csid] else []) + extended + data[offset..offset + chunkSize];
        PieceInFront(m, chunkSizeOut, offset, chunk);
        Assoc(before, chunk, FrameBody(m, chunkSizeOut, offset + chunkSize));
        var n := SendChunk(csid, offset, extended, data[offset..offset + chunkSize]);
        totalSize := totalSize + n;
        offset := offset + chunkSize;
      }
      NoPiece(m, chunkSizeOut);
      assert sent + [] == sent;
      bytesSent := (bytesSent + totalSize % TWO_32) % TWO_64;
      ok := true;
    }

    /** The sends of one round of the loop, and their total size. */
    method SendChunk(csid: nat, offset: nat, extended: seq<byte>, piece: seq<byte>) returns (n: nat)
      requires csid < 64
      modifies this`sent
      ensures sent == old(sent) + ((if offset > 0 then [192 + csid] else []) + extended + piece)
      ensures |sent| == |old(sent)| + n
    {
      n := 0;
      if offset > 0 {
        sent := sent + [192 + csid];
        n := n + 1;
      }
      sent := sent + extended;
      n := n + |extended|;
      sent := sent + piece;
      n := n + |piece|;
    }

    method SetChunkSize(size: uint32)
      requires chunkSizeOut > 0
      modifies this`sent, this`bytesSent, this`chunkSizeOut
      ensures sent == old(sent) + Frame(SetChunkSizeMessage(msgStreamId, size), old(chunkSizeOut))
      ensures chunkSizeOut == size
    {
      var _ := SendRtmp(MSG_SET_CHUNK, msgStreamId, SetBe32(size), 0, CHUNK_NETWORK);
      chunkSizeOut := size;
    }

    method SendAcknowledgement(size: uint32)
      requires chunkSizeOut > 0
      modifies this`sent, this`bytesSent
      ensures sent == old(sent) + Frame(Message(CHUNK_NETWORK, MSG_ACK, msgStreamId, 0, SetBe32(size)), chunkSizeOut)
    {
      var _ := SendRtmp(MSG_ACK, msgStreamId, SetBe32(size), 0, CHUNK_NETWORK);
    }

    method SetPeerBandwidth(size: uint32)
      requires chunkSizeOut > 0
      modifies this`sent, this`bytesSent
      ensures sent == old(sent)
                      + Frame(Message(CHUNK_NETWORK, MSG_SET_PEER_BW, msgStreamId, 0, SetBe32(size) + [2]), chunkSizeOut)
    {
      var _ := SendRtmp(MSG_SET_PEER_BW, msgStreamId, SetBe32(size) + [2], 0, CHUNK_NETWORK);
    }

    // -------------------------------------------------------------- receiving

    method HandleMessage(m: Message)
      requires !failed
      modifies this`chunkSizeIn, this`delivered, this`failed
      ensures Receiving() == HandleChunk(env, old(Receiving()), m)
    {
      delivered := delivered + [m];
      if m.typeId == MSG_SET_CHUNK {
        if |m.body| < 4 {
          failed := true;
        } else {
          chunkSizeIn := LoadBe32(m.body);
        }
      } else if m.typeId == MSG_ACK {
        failed := |m.body| < 4;
      } else {
        failed := env.rejects(delivered);
      }
    }

    /** One round of the loop of `split_rtmp` at `ptr`: the number of bytes used, 0 if the
        chunk is not all there. */
    method TakeChunk(ptr: seq<byte>) returns (n: nat)
      requires |ptr| > 0 && !failed
      modifies this`chunkStreamId, this`msgStreamId, this`chunkSizeIn, this`chunkedData, this`delivered, this`failed
      ensures n <= |ptr|
      ensures Step(env, old(Receiving()), ptr) == if n == 0 then NeedMore(Receiving()) else Consumed(n, Receiving())
    {
      hide Announced, Note, StepPayload, BasicHeader;
      var fmt := ptr[0] / 64;
      var headerLength := HeaderLength(fmt);
      var basic := TakeBasicHeader(ptr);
      if basic == None {
        return 0;
      }
      var (csid, offset) := basic.value;
      if |ptr| < offset + headerLength {
        return 0;
      }
      var packet := NoteHeader(csid, fmt, ptr[offset + 1..offset + headerLength]);
      NoteSetsStreamId(env, old(Receiving()), csid, fmt, ptr[offset + 1..offset + headerLength], packet);
      var done, used := TakePayload(csid, packet, ptr[offset + headerLength..]);
      n := if done then offset + headerLength + used else 0;
    }

    /** The chunk stream id and the number of extra id bytes, if they are all there. */
    method TakeBasicHeader(ptr: seq<byte>) returns (header: Option<(nat, nat)>)
      requires |ptr| > 0
      modifies this`chunkStreamId
      ensures header == BasicHeader(ptr)
      ensures chunkStreamId == if header == None then ptr[0] % 64 else header.value.0
    {
      chunkStreamId := ptr[0] % 64;
      var offset := 0;
      if chunkStreamId == 0 {
        if |ptr| < 2 {
          return None;
        }
        chunkStreamId, offset := 64 + ptr[1] as nat, 1;
      } else if chunkStreamId == 1 {
        if |ptr| < 3 {
          return None;
        }
        chunkStreamId, offset := 64 + ptr[1] as nat + ptr[2] as nat * 0x100, 2;
      }
      header := Some((chunkStreamId, offset));
    }

    method NoteHeader(csid: nat, fmt: nat, h: seq<byte>) returns (now: Packet)
      requires fmt < 4 && |h| == HeaderLength(fmt) - 1 && chunkStreamId == csid
      modifies this`chunkedData
      ensures csid in chunkedData
      ensures now == Announced(env, old(Receiving()), csid, fmt, h)
      ensures Receiving() == Note(old(Receiving()), csid, now)
    {
      var slot := if csid in chunkedData then chunkedData[csid] else Slot(None, None);
      now := slot.now.GetOr(Packet(slot.last.GetOr(env.junk(csid)).(isAbsStamp := false), []));
      if fmt == 0 {
        now := now.(ctx := now.ctx.(isAbsStamp := true, tsDelta := LoadBe24(h), msgLength := LoadBe24(h[3..]),
                                    typeId := h[6], streamId := LoadLe32(h[7..])));
      } else if fmt == 1 {
        now := now.(ctx := now.ctx.(tsDelta := LoadBe24(h), msgLength := LoadBe24(h[3..]), typeId := h[6]));
      } else if fmt == 2 {
        now := now.(ctx := now.ctx.(tsDelta := LoadBe24(h)));
      }
      chunkedData := chunkedData[csid := slot.(now := Some(now))];
    }

    /** The part of the round behind the message header. */
    method TakePayload(csid: nat, packet: Packet, ptr: seq<byte>) returns (done: bool, n: nat)
      requires !failed && csid in chunkedData
      modifies this`msgStreamId, this`chunkSizeIn, this`chunkedData, this`delivered, this`failed
      ensures n <= |ptr|
      ensures StepPayload(env, old(Receiving()), csid, packet, ptr)
              == if done then Consumed(n, Receiving()) else NeedMore(Receiving())
    {
      var stamp := packet.ctx.tsDelta;
      n := 0;
      if packet.ctx.tsDelta == STAMP_ESCAPE {
        if |ptr| < 4 {
          return false, 0;
        }
        stamp := LoadBe32(ptr);
        n := 4;
      }
      var remain := (packet.ctx.msgLength as int - |packet.body|) % TWO_64;
      var more := if chunkSizeIn < remain then chunkSizeIn else remain;
      if |ptr| < n + more {
        return false, 0;
      }
      Deliver(csid, packet.(body := packet.body + ptr[n..n + more]), stamp);
      return true, n + more;
    }

    /** The end of the round: keep the packet, or hand it over and keep its context. */
    method Deliver(csid: nat, now: Packet, stamp: uint32)
      requires !failed && csid in chunkedData
      modifies this`msgStreamId, this`chunkSizeIn, this`chunkedData, this`delivered, this`failed
      ensures Receiving() == Accept(env, old(Receiving()), csid, now, stamp)
    {
      if now.ctx.msgLength != |now.body| {
        chunkedData := chunkedData[csid := chunkedData[csid].(now := Some(now))];
        return;
      }
      msgStreamId := now.ctx.streamId;
      var ctx := now.ctx.(timeStamp := (stamp + (if now.ctx.isAbsStamp then 0 else now.ctx.timeStamp)) % TWO_32);
      chunkedData := chunkedData[csid := Slot(None, Some(ctx))];
      if ctx.msgLength > 0 {
        HandleMessage(Message(csid, ctx.typeId, ctx.streamId, ctx.timeStamp, now.body));
      }
    }

    method SplitRtmp(data: seq<byte>) returns (pos: nat)
      requires !failed
      modifies this`chunkStreamId, this`msgStreamId, this`chunkSizeIn, this`chunkedData, this`delivered, this`failed
      ensures pos <= |data|
      ensures (Receiving(), data[pos..]) == Split(env, old(Receiving()), data)
    {
      hide Step;
      pos := 0;
      assert data[0..] == data;
      while pos < |data| && !failed
        invariant pos <= |data|
        invariant Split(env, Receiving(), data[pos..]) == Split(env, old(Receiving()), data)
      {
        var n := TakeChunk(data[pos..]);
        if n == 0 {
          return;
        }
        assert data[pos..][n..] == data[pos + n..];
        pos := pos + n;
      }
    }

    // -------------------------------------------------------------- reads

    method HandleC0C1(data: seq<byte>, s1: seq<byte>) returns (pos: nat)
      requires phase == AwaitC0C1 && !failed && |s1| == C1_SIZE
      modifies this
      ensures pos <= |data|
      ensures (Connection(phase, Receiving()), data[pos..]) == OnRead(env, old(Connection(phase, Receiving())), data)
      ensures sent == old(sent) + if phase == AwaitC2 then [RTMP_VERSION] + s1 + data[1..1 + C1_SIZE] else []
      ensures chunkSizeOut == old(chunkSizeOut)
    {
      if |data| < 1 + C1_SIZE {
        return 0;
      }
      if data[0] != RTMP_VERSION {
        failed := true;
        return 0;
      }
      sent := sent + [RTMP_VERSION];
      sent := sent + s1;
      sent := sent + data[1..1 + C1_SIZE];
      phase := AwaitC2;
      pos := 1 + C1_SIZE;
    }

    method HandleC2(data: seq<byte>) returns (pos: nat)
      requires phase == AwaitC2 && !failed && chunkSizeOut > 0
      modifies this
      ensures pos <= |data|
      ensures (Connection(phase, Receiving()), data[pos..]) == OnRead(env, old(Connection(phase, Receiving())), data)
      ensures chunkSizeOut == if phase == Chunks then 4096 else old(chunkSizeOut)
      ensures sent == old(sent) + if phase == Chunks then Greeting(old(msgStreamId), old(chunkSizeOut)) else []
    {
      hide Split, Step, Frame, Greeting;
      if |data| < C1_SIZE {
        return 0;
      }
      phase := Chunks;
      GreetingParts(sent, msgStreamId, chunkSizeOut);
      SetChunkSize(4 * 1024);
      SendAcknowledgement(100 * 1024);
      SetPeerBandwidth(100 * 1024);
      pos := SplitRtmp(data[C1_SIZE..]);
      assert data[C1_SIZE..][pos..] == data[C1_SIZE + pos..];
      pos := C1_SIZE + pos;
    }

    /** One read. The step taken never points past the buffer, so exactly the bytes it used
        are consumed; an exception leaves the buffer as it is. `s1` is the server's own
        handshake packet. */
    method OnParseRtmp(buf: FlatBuffer, s1: seq<byte>)
      requires buf.Valid() && !failed && chunkSizeOut > 0 && |s1| == C1_SIZE
      modifies this, buf`readIndex, buf`writeIndex
      ensures buf.Valid()
      ensures var (c, rest) := OnRead(env, old(Connection(phase, Receiving())), old(buf.Unread()));
              && Connection(phase, Receiving()) == c
              && buf.Unread() == (if c.r.failed then old(buf.Unread()) else rest)
      ensures chunkSizeOut > 0
      ensures sent == old(sent) + if phase == old(phase) then []
                                  else if phase == Chunks then Greeting(old(msgStreamId), old(chunkSizeOut))
                                  else [RTMP_VERSION] + s1 + old(buf.Unread())[1..1 + C1_SIZE]
    {
      hide Split, Step, Greeting;
      var data := buf.data[buf.readIndex..buf.writeIndex];
      var pos: nat;
      match phase {
        case AwaitC0C1 => pos := HandleC0C1(data, s1);
        case AwaitC2 => pos := HandleC2(data);
        case Chunks => pos := SplitRtmp(data);
      }
      if !failed {
        buf.SafeConsume(pos);
      }
    }
  }

  /** What follows the handshake: the chunk size, cut with the old one, an acknowledgement and
      a bandwidth. */
  function Greeting(streamId: uint32, chunkSize: nat): seq<byte>
    requires chunkSize > 0
  {
    Frame(SetChunkSizeMessage(streamId, 4096), chunkSize)
    + (Frame(Message(CHUNK_NETWORK, MSG_ACK, streamId, 0, SetBe32(102400)), 4096)
       + Frame(Message(CHUNK_NETWORK, MSG_SET_PEER_BW, streamId, 0, SetBe32(102400) + [2]), 4096))
  }

  lemma GreetingParts(sent: seq<byte>, streamId: uint32, chunkSize: nat)
    requires chunkSize > 0
    ensures sent + Frame(SetChunkSizeMessage(streamId, 4096), chunkSize)
            + Frame(Message(CHUNK_NETWORK, MSG_ACK, streamId, 0, SetBe32(102400)), 4096)
            + Frame(Message(CHUNK_NETWORK, MSG_SET_PEER_BW, streamId, 0, SetBe32(102400) + [2]), 4096)
            == sent + Greeting(streamId, chunkSize)
  {
    hide Frame, SetBe32;
  }

  /** Main result: a client in step receives the greeting as exactly three messages, and from
      then on expects chunks of 4096 bytes. */
  lemma GreetingArrives(env: Env, w: Wire, r: Receiver, streamId: uint32)
    requires Accepting(env) && GoodWire(w) && Idle(w) && Matches(w, r) && w.chunkSize > 0 && !w.failed
    ensures Received(env, r, Greeting(streamId, w.chunkSize),
                     [Message(2, 1, streamId, 0, [0, 0, 0x10, 0]), Message(2, 3, streamId, 0, [0, 1, 0x90, 0]),
                      Message(2, 6, streamId, 0, [0, 1, 0x90, 0, 2])],
                     4096)
  {
    hide Frame, Matches, Idle, GoodWire, Accepting, Received, Greeting;
    var qs := GreetingTransmitted(streamId, w.chunkSize);
    SendReceive(env, w, r, qs);
  }

  lemma GreetingTransmitted(streamId: uint32, chunkSize: nat) returns (qs: seq<Request>)
    requires chunkSize > 0
    ensures AllFair(qs) && Transmit(chunkSize, qs) == Greeting(streamId, chunkSize) && FinalSize(chunkSize, qs) == 4096
    ensures Spoken(qs) == [Message(2, 1, streamId, 0, [0, 0, 0x10, 0]), Message(2, 3, streamId, 0, [0, 1, 0x90, 0]),
                           Message(2, 6, streamId, 0, [0, 1, 0x90, 0, 2])]
  {
    hide Frame;
    var size := Resize(streamId, 4096);
    var ack := Say(Message(2, 3, streamId, 0, [0, 1, 0x90, 0]));
    var bandwidth := Say(Message(2, 6, streamId, 0, [0, 1, 0x90, 0, 2]));
    qs := [size, ack, bandwidth];
    assert SetBe32(4096) == [0, 0, 0x10, 0] && SetBe32(102400) == [0, 1, 0x90, 0];
    assert SetBe32(102400) + [2] == [0, 1, 0x90, 0, 2];
    assert qs[1..] == [ack, bandwidth] && [ack, bandwidth][1..] == [bandwidth] && [bandwidth][1..] == [];
    assert AllFair(qs) && AllFair([ack, bandwidth]) && AllFair([bandwidth]);
    TransmitCons(chunkSize, qs);
    TransmitCons(4096, [ack, bandwidth]);
    TransmitCons(4096, [bandwidth]);
    assert Transmit(4096, []) == [] && Frame(bandwidth.m, 4096) + [] == Frame(bandwidth.m, 4096);
    assert Spoken([size]) == [MessageOf(size)] && Spoken([ack]) == [ack.m] && Spoken([bandwidth]) == [bandwidth.m];
  }

  lemma FrameParts(m: Message, chunkSize: nat, header: seq<byte>)
    requires SendableId(m.csid) && chunkSize > 0
    requires header == [m.csid] + SetBe24(if m.timeStamp >= STAMP_ESCAPE then STAMP_ESCAPE else m.timeStamp)
                       + SetBe24(|m.body|) + [m.typeId] + SetLe32(m.streamId)
    ensures Frame(m, chunkSize) == header + FrameBody(m, chunkSize, 0) && |header| == 12
  {
    hide FrameBody, SetBe24, SetLe32;
    assert header == FrameHeader(m);
  }

  lemma PieceInFront(m: Message, chunkSize: nat, offset: nat, chunk: seq<byte>)
    requires SendableId(m.csid) && chunkSize > 0 && offset < |m.body|
    requires var next := if chunkSize < |m.body| - offset then offset + chunkSize else |m.body|;
             chunk == (if offset > 0 then [192 + m.csid] else []) + (if m.timeStamp >= STAMP_ESCAPE then SetBe32(m.timeStamp) else [])
                      + m.body[offset..next]
    ensures var next := if chunkSize < |m.body| - offset then offset + chunkSize else |m.body|;
            FrameBody(m, chunkSize, offset) == chunk + FrameBody(m, chunkSize, next)
  {
    hide SetBe32;
    assert NextOffset(m, chunkSize, offset) == if chunkSize < |m.body| - offset then offset + chunkSize else |m.body|;
  }

  lemma NoPiece(m: Message, chunkSize: nat)
    requires SendableId(m.csid) && chunkSize > 0
    ensures FrameBody(m, chunkSize, |m.body|) == []
  {
  }
}
