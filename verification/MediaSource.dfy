/** A live RTMP source: `rtmp_media_source::process_av_packet`, and the way `flv_muxer` joins
    it. One publisher feeds the source; players join and leave between any two steps. */
module RtmpMediaSources {
  import opened Bytes
  import opened RtmpPackets
  import opened PacketDispatchers

  datatype Source = Source(
    dispatcher: State,
    configs: map<byte, Frame>,            // config_frame_map_
    registered: bool,
    begun: Option<Frame>,                 // in process_av_packet, before distribute
    published: seq<Frame>,                // every frame that got past the checks
    early: seq<Frame>,                    // those of them that came before registration
    taken: map<Reader, seq<Frame>>,       // config frames sent to a player
    joined: set<Reader>,
    current: set<Reader>)                 // joined with a video config that was current

  datatype Step =
    | Begin(frame: Frame, accepted: bool, free: bool)   // demuxer does not throw; the name is not taken
    | Distribute                                        // first critical section
    | Cache                                             // second
    | MergePlayers                                      // third
    | Take(player: Reader, audioFirst: bool)            // loop_config_frame
    | Join(player: Reader)                              // regist_reader
    | Part(player: Reader)                              // leave
    | Detach

  function NewSource(maxSize: nat): Source {
    Source(Start(maxSize), map[], false, None, [], [], map[], {}, {})
  }

  function AsSeq(f: Option<Frame>): seq<Frame> {
    if f.Some? then [f.value] else []
  }

  /** What `loop_config_frame` visits; the order of a hash map is not fixed. */
  function ConfigFrames(configs: map<byte, Frame>, audioFirst: bool): seq<Frame> {
    var audio := if MSG_AUDIO in configs then [configs[MSG_AUDIO]] else [];
    var video := if MSG_VIDEO in configs then [configs[MSG_VIDEO]] else [];
    if audioFirst then audio + video else video + audio
  }

  predicate Ready(s: Source, e: Step) {
    match e
    case Begin(_, _, _) => s.begun == None && s.dispatcher.phase.Idle?
    case Distribute => s.begun.Some? && s.dispatcher.phase.Idle?
    case Cache => s.dispatcher.phase.Delivered?
    case MergePlayers => s.dispatcher.phase.Stored?
    case Take(r, _) => s.registered && r !in s.taken
    case Join(r) => r in s.taken && r !in s.joined
    case Part(_) => true
    case Detach => true
  }

  /** `process_av_packet` up to the call of `distribute`: an exception leaves the source as it
      is, a config frame of an unregistered source is only remembered, and the first other
      frame registers the source. */
  function Begun(s: Source, f: Frame, accepted: bool, free: bool): Source {
    if (f.msgType != MSG_AUDIO && f.msgType != MSG_VIDEO) || !accepted || IsConfigFrame(f) == None then s
    else if IsConfigFrame(f) == Some(true) then
      var t := s.(configs := s.configs[f.msgType := f], published := s.published + [f]);
      if s.registered then t.(begun := Some(f)) else t.(early := s.early + [f])
    else if s.registered || free then s.(registered := true, begun := Some(f), published := s.published + [f])
    else s
  }

  function Next(s: Source, e: Step): Source
    requires s.dispatcher.maxSize > 0 && Ready(s, e)
  {
    match e
    case Begin(f, accepted, free) => Begun(s, f, accepted, free)
    case Distribute =>
      s.(dispatcher := Apply(s.dispatcher, Deliver(Packet(s.begun.value, IsKey(s.begun.value)))), begun := None)
    case Cache => s.(dispatcher := Apply(s.dispatcher, Store))
    case MergePlayers => s.(dispatcher := Apply(s.dispatcher, Merge))
    case Take(r, audioFirst) => s.(taken := s.taken[r := ConfigFrames(s.configs, audioFirst)])
    case Join(r) =>
      s.(dispatcher := Apply(s.dispatcher, Register(r)), joined := s.joined + {r},
         current := if ConfigIsCurrent(s, r) then s.current + {r} else s.current)
    case Part(r) => s.(dispatcher := Apply(s.dispatcher, Leave(r)))
    case Detach => s.(dispatcher := Apply(s.dispatcher, DetachAll))
  }

  // ---------------------------------------------------------------- the config in force

  /** The last config frame of a kind. */
  function Latest(fs: seq<Frame>, kind: byte): (c: Option<Frame>)
    ensures c.Some? ==> IsConfig(c.value, kind)
  {
    if fs == [] then None
    else if IsConfig(fs[|fs| - 1], kind) then Some(fs[|fs| - 1])
    else Latest(fs[..|fs| - 1], kind)
  }

  function Frames(ps: seq<Packet>): (fs: seq<Frame>)
    ensures |fs| == |ps|
  {
    seq(|ps|, i requires 0 <= i < |ps| => ps[i].frame)
  }

  /** A video config frame is on its way through `process_av_packet`. */
  predicate ConfigInFlight(s: Source) {
    && (s.begun.Some? || !s.dispatcher.phase.Idle?)
    && s.published != [] && IsConfig(s.published[|s.published| - 1], MSG_VIDEO)
  }

  /** Enough for a player to be right about video, and easy to see when it registers: it was
      sent the video config frame that the source holds now, or a newer one is just being
      distributed. */
  predicate ConfigIsCurrent(s: Source, r: Reader)
    requires r in s.taken
  {
    Latest(s.taken[r], MSG_VIDEO) == Latest(s.published, MSG_VIDEO) || ConfigInFlight(s)
  }

  /** Reading frames `a` to `b` of the history behind the frames `sent` on joining, the config
      that comes last is at every point the one that was published last. */
  ghost predicate Follows(sent: seq<Frame>, early: seq<Frame>, h: seq<Frame>, a: nat, b: nat, kind: byte)
  {
    a <= b <= |h| && forall i | a <= i < b :: SameConfig(sent, early, h, a, i, kind)
  }

  predicate SameConfig(sent: seq<Frame>, early: seq<Frame>, h: seq<Frame>, a: nat, i: nat, kind: byte)
    requires a <= i < |h|
  {
    Latest(sent + h[a..i + 1], kind) == Latest(early + h[..i + 1], kind)
  }

  function History(s: Source): seq<Frame> { Frames(s.dispatcher.history) }

  function GotFrames(s: Source, r: Reader): seq<Frame> { Frames(ReceivedBy(s.dispatcher.received, r)) }

  ghost predicate BlockRight(sent: seq<Frame>, early: seq<Frame>, h: seq<Frame>, got: seq<Frame>, a: nat, b: nat, kind: byte) {
    Follows(sent, early, h, a, b, kind) && got == h[a..b]
  }

  /** The player has got a block of the history, and for each of its frames the config frame
      that precedes it in the player's own stream is the one in force when it was published. */
  ghost predicate InForce(s: Source, r: Reader, kind: byte)
    requires r in s.taken
  {
    exists a: nat, b: nat :: BlockRight(s.taken[r], s.early, History(s), GotFrames(s, r), a, b, kind)
  }

  /** The same, with everything up to the present. */
  ghost predicate InForceNow(s: Source, r: Reader, kind: byte)
    requires r in s.taken
  {
    exists a: nat :: a < |History(s)| && BlockRight(s.taken[r], s.early, History(s), GotFrames(s, r), a, |History(s)|, kind)
  }

  lemma LatestSnoc(fs: seq<Frame>, f: Frame, kind: byte)
    ensures Latest(fs + [f], kind) == if IsConfig(f, kind) then Some(f) else Latest(fs, kind)
  {
    assert (fs + [f])[..|fs|] == fs;
  }

  lemma {:induction false} LatestConcat(a: seq<Frame>, b: seq<Frame>, kind: byte)
    ensures Latest(a + b, kind) == if Latest(b, kind).Some? then Latest(b, kind) else Latest(a, kind)
    decreases |b|
  {
    if b == [] {
      assert a + b == a;
    } else {
      var front := b[..|b| - 1];
      LatestConcat(a, front, kind);
      LatestSnoc(front, b[|b| - 1], kind);
      LatestSnoc(a + front, b[|b| - 1], kind);
      assert front + [b[|b| - 1]] == b && a + front + [b[|b| - 1]] == a + b;
    }
  }

  lemma {:induction false} LatestOfNone(fs: seq<Frame>, kind: byte)
    requires forall i | 0 <= i < |fs| :: !IsConfig(fs[i], kind)
    ensures Latest(fs, kind) == None
    decreases |fs|
  {
    if fs != [] {
      LatestOfNone(fs[..|fs| - 1], kind);
    }
  }

  /** A player served from frame `a` on is right exactly when that frame is itself a config
      frame, or what it was sent on joining is the config that was in force there. */
  lemma ServedFromIff(sent: seq<Frame>, early: seq<Frame>, h: seq<Frame>, a: nat, kind: byte)
    requires a < |h|
    ensures Follows(sent, early, h, a, |h|, kind) <==>
              IsConfig(h[a], kind) || Latest(sent, kind) == Latest(early + h[..a], kind)
  {
    hide Latest, IsConfig;
    SameConfigIff(sent, early, h, a, a, kind);
    forall i | a <= i < |h| && SameConfig(sent, early, h, a, a, kind)
      ensures SameConfig(sent, early, h, a, i, kind)
    {
      SameConfigIff(sent, early, h, a, i, kind);
    }
  }

  lemma SameConfigIff(sent: seq<Frame>, early: seq<Frame>, h: seq<Frame>, a: nat, i: nat, kind: byte)
    requires a <= i < |h|
    ensures IsConfig(h[a], kind) || Latest(sent, kind) == Latest(early + h[..a], kind) ==> SameConfig(sent, early, h, a, i, kind)
    ensures i == a && SameConfig(sent, early, h, a, i, kind) ==>
              IsConfig(h[a], kind) || Latest(sent, kind) == Latest(early + h[..a], kind)
  {
    hide Latest, IsConfig;
    LatestConcat(sent, h[a..i + 1], kind);
    LatestConcat(early + h[..a], h[a..i + 1], kind);
    assert early + h[..a] + h[a..i + 1] == early + h[..i + 1];
    assert h[a..i + 1] == [h[a]] + h[a + 1..i + 1];
    LatestConcat([h[a]], h[a + 1..i + 1], kind);
    LatestOfOne(h[a], kind);
    LatestOfNone([], kind);
    assert i == a ==> h[a + 1..i + 1] == [];
  }

  lemma LatestOfOne(f: Frame, kind: byte)
    ensures Latest([f], kind) == if IsConfig(f, kind) then Some(f) else None
  {
    LatestSnoc([], f, kind);
    assert [] + [f] == [f];
  }

  // ---------------------------------------------------------------- what every step keeps

  /** Where the published frames are. */
  ghost predicate Flow(s: Source) {
    && s.published == s.early + History(s) + AsSeq(s.begun)
    && (s.begun.Some? ==> s.dispatcher.phase.Idle?)
    && (!s.registered ==> s.dispatcher.history == [] && s.begun == None && s.taken == map[])
    && (s.dispatcher.phase.Delivered? ==> s.dispatcher.phase.packet.idr == IsKey(s.dispatcher.phase.packet.frame))
  }

  /** The map holds the latest config frames, and the cache has a video config frame at most
      in front. */
  ghost predicate ConfigsKept(s: Source) {
    && (forall kind | kind in {MSG_AUDIO, MSG_VIDEO} ::
         Latest(s.published, kind) == if kind in s.configs then Some(s.configs[kind]) else None)
    && OnlyInFront(s.dispatcher.cache)
  }

  predicate OnlyInFront(cache: seq<Packet>) {
    forall i | 0 < i < |cache| :: !IsConfig(cache[i].frame, MSG_VIDEO)
  }

  ghost predicate PlayerRight(s: Source, r: Reader)
    requires r in s.taken
  {
    && (r in s.dispatcher.pending ==> ConfigIsCurrent(s, r))
    && (r in s.dispatcher.active ==> InForceNow(s, r, MSG_VIDEO))
    && InForce(s, r, MSG_VIDEO)
  }

  ghost predicate PlayersKnown(s: Source) {
    && s.current <= s.joined <= s.taken.Keys
    && s.dispatcher.pending <= s.joined && s.dispatcher.received.Keys <= s.joined
  }

  ghost predicate SourceValid(s: Source) {
    && CacheExact(s.dispatcher) && ReadersExact(s.dispatcher)
    && Flow(s) && ConfigsKept(s) && PlayersKnown(s)
    && forall r | r in s.current :: PlayerRight(s, r)
  }

  lemma NewIsValid(maxSize: nat)
    ensures SourceValid(NewSource(maxSize))
  {
    StartExact(maxSize);
    hide CacheExact, ReadersExact, IsConfig;
    var s := NewSource(maxSize);
    assert History(s) == [] && s.published == s.early + History(s) + AsSeq(s.begun);
  }

  lemma FramesSnoc(h: seq<Packet>, p: Packet)
    ensures Frames(h + [p]) == Frames(h) + [p.frame]
  {
  }

  lemma StepDispatcher(s: Source, e: Step)
    requires SourceValid(s) && Ready(s, e)
    ensures CacheExact(Next(s, e).dispatcher) && ReadersExact(Next(s, e).dispatcher) && PlayersKnown(Next(s, e))
  {
    hide CacheExact, ReadersExact, ConfigsKept, ConfigIsCurrent, PlayerRight;
    var d := s.dispatcher;
    assert d.maxSize > 0 by {
      MaxSizePositive(d);
    }
    match e
    case Begin(_, _, _) =>
    case Take(_, _) =>
    case Distribute =>
      var p := Packet(s.begun.value, IsKey(s.begun.value));
      StepCache(d, Deliver(p));
      StepReaders(d, Deliver(p));
      ActiveServed(d);
    case Cache =>
      StepCache(d, Store);
      StepReaders(d, Store);
    case MergePlayers =>
      StepCache(d, Merge);
      StepReaders(d, Merge);
    case Join(r) =>
      StepCache(d, Register(r));
      StepReaders(d, Register(r));
    case Part(r) =>
      StepCache(d, Leave(r));
      StepReaders(d, Leave(r));
    case Detach =>
      StepCache(d, DetachAll);
      StepReaders(d, DetachAll);
  }

  lemma ActiveServed(d: State)
    requires ReadersExact(d)
    ensures d.active <= d.received.Keys
  {
  }

  lemma StepFlow(s: Source, e: Step)
    requires CacheExact(s.dispatcher) && Flow(s) && ConfigsKept(s) && Ready(s, e)
    ensures Flow(Next(s, e))
  {
    hide CacheExact, ConfigsKept, Latest;
    assert s.dispatcher.maxSize > 0 by {
      MaxSizePositive(s.dispatcher);
    }
    if e.Distribute? {
      FramesSnoc(s.dispatcher.history, Packet(s.begun.value, IsKey(s.begun.value)));
    }
  }

  lemma StepConfigs(s: Source, e: Step)
    requires CacheExact(s.dispatcher) && Flow(s) && ConfigsKept(s) && Ready(s, e)
    ensures ConfigsKept(Next(s, e))
  {
    hide Latest, Frames, IsConfigFrame, IsVideoKeyframe;
    match e
    case Begin(f, _, _) =>
      LatestSnoc(s.published, f, MSG_AUDIO);
      LatestSnoc(s.published, f, MSG_VIDEO);
    case Cache =>
      var p := s.dispatcher.phase.packet;
      if p.frame.msgType == MSG_VIDEO {
        VideoConfigIff(p.frame);
      }
      FrontAfterStore(s.dispatcher.cache, s.dispatcher.maxSize, p);
    case _ =>
  }

  lemma FrontAfterStore(cache: seq<Packet>, max: nat, p: Packet)
    requires max > 0 && OnlyInFront(cache) && (IsConfig(p.frame, MSG_VIDEO) ==> p.idr)
    ensures OnlyInFront(Retained(cache, max, p.idr) + [p])
  {
  }

  /** One more frame for everybody who is up to date. */
  lemma FollowsMore(sent: seq<Frame>, early: seq<Frame>, h: seq<Frame>, a: nat, b: nat, f: Frame, kind: byte)
    requires Follows(sent, early, h, a, b, kind)
    ensures Follows(sent, early, h + [f], a, b, kind)
    ensures a < b == |h| ==> Follows(sent, early, h + [f], a, b + 1, kind)
  {
    hide Latest;
    forall i | a <= i < b
      ensures SameConfig(sent, early, h + [f], a, i, kind)
    {
      assert SameConfig(sent, early, h, a, i, kind);
      assert (h + [f])[a..i + 1] == h[a..i + 1] && (h + [f])[..i + 1] == h[..i + 1];
    }
    if a < b == |h| {
      assert SameConfig(sent, early, h, a, b - 1, kind);
      assert h[a..b] == h[a..] && h[..b] == h;
      LatestSnoc(sent + h[a..], f, kind);
      LatestSnoc(early + h, f, kind);
      assert sent + h[a..] + [f] == sent + (h + [f])[a..b + 1];
      assert early + h + [f] == early + (h + [f])[..b + 1];
    }
  }

  lemma BlockMore(sent: seq<Frame>, early: seq<Frame>, h: seq<Frame>, got: seq<Frame>, a: nat, b: nat, f: Frame, kind: byte)
    requires BlockRight(sent, early, h, got, a, b, kind)
    ensures BlockRight(sent, early, h + [f], got, a, b, kind)
    ensures a < b == |h| ==> BlockRight(sent, early, h + [f], got + [f], a, |h + [f]|, kind)
  {
    hide SameConfig;
    FollowsMore(sent, early, h, a, b, f, kind);
    FollowsBounds(sent, early, h, a, b, kind);
    assert (h + [f])[a..b] == h[a..b];
    assert b == |h| ==> h[a..b] + [f] == (h + [f])[a..|h + [f]|];
  }

  /** What the first critical section gives a player. */
  lemma DeliveredFrames(s: Source, r: Reader)
    requires s.begun.Some? && s.dispatcher.phase.Idle? && s.dispatcher.maxSize > 0
    ensures var t := Next(s, Distribute);
            var f := s.begun.value;
            && History(t) == History(s) + [f] && t.taken == s.taken && t.early == s.early
            && GotFrames(t, r) == if r in s.dispatcher.active then GotFrames(s, r) + [f] else GotFrames(s, r)
  {
    hide Frames, IsKey;
    var p := Packet(s.begun.value, IsKey(s.begun.value));
    FramesSnoc(s.dispatcher.history, p);
    FramesSnoc(ReceivedBy(s.dispatcher.received, r), p);
  }

  lemma DistributeKeeps(s: Source, r: Reader, kind: byte)
    requires s.begun.Some? && s.dispatcher.phase.Idle? && s.dispatcher.maxSize > 0 && r in s.taken
    requires InForce(s, r, kind) && (r in s.dispatcher.active ==> InForceNow(s, r, kind))
    ensures var t := Next(s, Distribute);
            InForce(t, r, kind) && (r in s.dispatcher.active ==> InForceNow(t, r, kind))
  {
    hide BlockRight, History, GotFrames, Next;
    DeliveredFrames(s, r);
    var t, f := Next(s, Distribute), s.begun.value;
    var sent, h, got := s.taken[r], History(s), GotFrames(s, r);
    if r in s.dispatcher.active {
      var a: nat :| a < |h| && BlockRight(sent, s.early, h, got, a, |h|, kind);
      BlockMore(sent, s.early, h, got, a, |h|, f, kind);
      assert BlockRight(t.taken[r], t.early, History(t), GotFrames(t, r), a, |History(t)|, kind);
    } else {
      var a: nat, b: nat :| BlockRight(sent, s.early, h, got, a, b, kind);
      BlockMore(sent, s.early, h, got, a, b, f, kind);
      assert BlockRight(t.taken[r], t.early, History(t), GotFrames(t, r), a, b, kind);
    }
  }

  lemma FollowsBounds(sent: seq<Frame>, early: seq<Frame>, h: seq<Frame>, a: nat, b: nat, kind: byte)
    requires Follows(sent, early, h, a, b, kind)
    ensures a <= b <= |h|
  {
  }

  /** With video config frames only in front of the cache, a player that joined with the
      current one is served the right frames. */
  lemma MergeKeeps(s: Source, r: Reader)
    requires SourceValid(s) && s.dispatcher.phase.Stored? && r in s.current && r in s.dispatcher.pending
    ensures InForceNow(Next(s, MergePlayers), r, MSG_VIDEO)
  {
    hide InForceNow, InForce, Served, Latest, IsConfig, Retained;
    var a := CacheStart(s.dispatcher);
    assert PlayerRight(s, r);
    StoredCurrent(s, r);
    CachedFrames(s, a);
    FrontIsRight(s.taken[r], s.early, History(s), a);
    FramesFrom(s.dispatcher.history, a);
    ServedFromCache(Next(s, MergePlayers), r, a, MSG_VIDEO);
  }

  lemma StoredCurrent(s: Source, r: Reader)
    requires Flow(s) && s.dispatcher.phase.Stored? && s.dispatcher.history != [] && r in s.taken && ConfigIsCurrent(s, r)
    ensures var h := History(s);
            Latest(s.taken[r], MSG_VIDEO) == Latest(s.early + h, MSG_VIDEO) || IsConfig(h[|h| - 1], MSG_VIDEO)
  {
    hide Latest, IsConfig;
    assert s.published == s.early + History(s);
  }

  lemma CachedFrames(s: Source, a: nat)
    requires a < |s.dispatcher.history| && s.dispatcher.cache == s.dispatcher.history[a..] && OnlyInFront(s.dispatcher.cache)
    ensures forall i | a < i < |History(s)| :: !IsConfig(History(s)[i], MSG_VIDEO)
  {
    assert forall i | a < i < |History(s)| :: History(s)[i] == s.dispatcher.cache[i - a].frame;
  }

  /** A player that is served the history from frame `a` on is right if that frame is a config
      frame or the player was sent the one in force there. */
  lemma ServedFromCache(t: Source, r: Reader, a: nat, kind: byte)
    requires r in t.taken && a < |History(t)| && GotFrames(t, r) == History(t)[a..]
    requires IsConfig(History(t)[a], kind) || Latest(t.taken[r], kind) == Latest(t.early + History(t)[..a], kind)
    ensures InForceNow(t, r, kind)
  {
    hide Latest, IsConfig, Follows, History, GotFrames;
    var h := History(t);
    ServedFromIff(t.taken[r], t.early, h, a, kind);
    assert h[a..] == h[a..|h|];
    assert BlockRight(t.taken[r], t.early, h, GotFrames(t, r), a, |h|, kind);
  }

  lemma FrontIsRight(sent: seq<Frame>, early: seq<Frame>, h: seq<Frame>, a: nat)
    requires a < |h| && forall i | a < i < |h| :: !IsConfig(h[i], MSG_VIDEO)
    requires Latest(sent, MSG_VIDEO) == Latest(early + h, MSG_VIDEO) || IsConfig(h[|h| - 1], MSG_VIDEO)
    ensures IsConfig(h[a], MSG_VIDEO) || Latest(sent, MSG_VIDEO) == Latest(early + h[..a], MSG_VIDEO)
  {
    hide Latest, IsConfig;
    if !IsConfig(h[a], MSG_VIDEO) {
      assert forall i | 0 <= i < |h[a..]| :: h[a..][i] == h[a + i];
      LatestOfNone(h[a..], MSG_VIDEO);
      LatestConcat(early + h[..a], h[a..], MSG_VIDEO);
      assert early + h[..a] + h[a..] == early + h;
    }
  }

  /** Where in the history the cache starts, once the newest packet is stored. */
  lemma CacheStart(d: State) returns (a: nat)
    requires CacheExact(d) && ReadersExact(d) && d.phase.Stored?
    ensures a < |d.history| && d.cache == d.history[a..]
    ensures forall r | r in d.pending :: ReceivedBy(Apply(d, Merge).received, r) == d.cache
  {
    MergeReaders(d);
    SinceKeyPositive(d.history);
    a := |d.history| - (if SinceKey(d.history) < d.maxSize then SinceKey(d.history) else d.maxSize);
  }

  lemma FramesFrom(h: seq<Packet>, a: nat)
    requires a <= |h|
    ensures Frames(h[a..]) == Frames(h)[a..]
  {
  }

  lemma NowIsInForce(s: Source, r: Reader, kind: byte)
    requires r in s.taken && InForceNow(s, r, kind)
    ensures InForce(s, r, kind)
  {
    hide Follows;
    var a: nat :| a < |History(s)| && BlockRight(s.taken[r], s.early, History(s), GotFrames(s, r), a, |History(s)|, kind);
  }

  /** Nothing has been served yet. */
  lemma NothingGot(s: Source, r: Reader, kind: byte)
    requires r in s.taken && r !in s.dispatcher.received
    ensures InForce(s, r, kind)
  {
    assert BlockRight(s.taken[r], s.early, History(s), GotFrames(s, r), 0, 0, kind);
  }

  lemma SameView(s: Source, t: Source, r: Reader, kind: byte)
    requires r in s.taken && r in t.taken && t.taken[r] == s.taken[r] && t.early == s.early
    requires t.dispatcher.history == s.dispatcher.history && ReceivedBy(t.dispatcher.received, r) == ReceivedBy(s.dispatcher.received, r)
    ensures InForce(s, r, kind) ==> InForce(t, r, kind)
    ensures InForceNow(s, r, kind) ==> InForceNow(t, r, kind)
  {
    hide BlockRight, Frames;
    assert History(t) == History(s) && GotFrames(t, r) == GotFrames(s, r);
  }

  lemma StepPlayer(s: Source, e: Step, r: Reader)
    requires SourceValid(s) && Ready(s, e) && r in Next(s, e).current
    requires PlayersKnown(Next(s, e))
    ensures PlayerRight(Next(s, e), r)
  {
    var t := Next(s, e);
    assert r in s.current ==> PlayerRight(s, r);
    assert ReadersExact(s.dispatcher) && PlayersKnown(s) && Flow(s);
    hide InForce, InForceNow, CacheExact, SourceValid, ConfigsKept, Begun, ConfigIsCurrent;
    match e
    case Begin(f, accepted, free) => BeginKeepsPlayer(s, f, accepted, free, r);
    case Distribute =>
      DistributeKeeps(s, r, MSG_VIDEO);
      SameFlight(s, r);
    case Cache => 
      SameView(s, t, r, MSG_VIDEO);
      StillCurrent(s, t, r);
    case MergePlayers =>
      if r in s.dispatcher.pending {
        MergeKeeps(s, r);
        NowIsInForce(t, r, MSG_VIDEO);
      } else {
        SameView(s, t, r, MSG_VIDEO);
      }
    case Join(q) => JoinKeepsPlayer(s, q, r);
    case Take(q, _) =>
      SameView(s, t, r, MSG_VIDEO);
      StillCurrent(s, t, r);
    case Part(_) =>
      SameView(s, t, r, MSG_VIDEO);
      StillCurrent(s, t, r);
    case Detach => SameView(s, t, r, MSG_VIDEO);
  }

  lemma StillCurrent(s: Source, t: Source, r: Reader)
    requires r in s.taken && r in t.taken && t.taken[r] == s.taken[r] && t.published == s.published && t.begun == s.begun
    requires t.dispatcher.phase.Idle? <==> s.dispatcher.phase.Idle?
    ensures ConfigIsCurrent(s, r) <==> ConfigIsCurrent(t, r)
  {
  }

  lemma JoinKeepsPlayer(s: Source, q: Reader, r: Reader)
    requires s.dispatcher.maxSize > 0 && Ready(s, Join(q)) && r in Next(s, Join(q)).current
    requires PlayersKnown(s) && (r in s.current ==> PlayerRight(s, r))
    requires ReadersExact(s.dispatcher)
    ensures PlayerRight(Next(s, Join(q)), r)
  {
    hide InForce, InForceNow;
    var t := Next(s, Join(q));
    hide ConfigIsCurrent;
    StillCurrent(s, t, r);
    if q == r {
      NothingGot(t, r, MSG_VIDEO);
    } else {
      SameView(s, t, r, MSG_VIDEO);
    }
  }

  lemma BeginKeepsPlayer(s: Source, f: Frame, accepted: bool, free: bool, r: Reader)
    requires Ready(s, Begin(f, accepted, free)) && Flow(s) && r in s.taken && PlayerRight(s, r)
    ensures PlayerRight(Begun(s, f, accepted, free), r)
  {
    hide InForce, InForceNow;
    BeginKeepsCurrent(s, f, accepted, free, r);
    hide ConfigIsCurrent;
    SameView(s, Begun(s, f, accepted, free), r, MSG_VIDEO);
  }

  lemma SameFlight(s: Source, r: Reader)
    requires s.begun.Some? && s.dispatcher.phase.Idle? && s.dispatcher.maxSize > 0 && r in s.taken
    ensures ConfigIsCurrent(Next(s, Distribute), r) <==> ConfigIsCurrent(s, r)
  {
  }

  lemma BeginKeepsCurrent(s: Source, f: Frame, accepted: bool, free: bool, r: Reader)
    requires Ready(s, Begin(f, accepted, free)) && Flow(s) && r in s.taken
    ensures ConfigIsCurrent(s, r) ==> ConfigIsCurrent(Begun(s, f, accepted, free), r)
  {
    LatestSnoc(s.published, f, MSG_VIDEO);
    hide Latest;
  }

  lemma StepKeeps(s: Source, e: Step)
    requires SourceValid(s) && Ready(s, e)
    ensures SourceValid(Next(s, e))
  {
    MaxSizePositive(s.dispatcher);
    hide CacheExact, ReadersExact, Flow, ConfigsKept, PlayerRight, Next, Ready;
    StepDispatcher(s, e);
    StepFlow(s, e);
    StepConfigs(s, e);
    forall r | r in Next(s, e).current
      ensures PlayerRight(Next(s, e), r)
    {
      StepPlayer(s, e, r);
    }
  }

  // ---------------------------------------------------------------- runs

  predicate LegalRun(s: Source, run: seq<Step>)
    requires s.dispatcher.maxSize > 0
    decreases |run|, 0
  {
    run == [] || (LegalRun(s, run[..|run| - 1]) && Ready(AfterRun(s, run[..|run| - 1]), run[|run| - 1]))
  }

  function AfterRun(s: Source, run: seq<Step>): (t: Source)
    requires s.dispatcher.maxSize > 0 && LegalRun(s, run)
    ensures t.dispatcher.maxSize > 0
    decreases |run|, 1
  {
    if run == [] then s else Next(AfterRun(s, run[..|run| - 1]), run[|run| - 1])
  }

  lemma {:induction false} RunKeeps(s: Source, run: seq<Step>)
    requires s.dispatcher.maxSize > 0 && SourceValid(s) && LegalRun(s, run)
    ensures SourceValid(AfterRun(s, run)) && s.current <= AfterRun(s, run).current
    decreases |run|
  {
    hide SourceValid, Next, Ready;
    if run != [] {
      var t := AfterRun(s, run[..|run| - 1]);
      RunKeeps(s, run[..|run| - 1]);
      StepKeeps(t, run[|run| - 1]);
      CurrentGrows(t, run[|run| - 1]);
    }
  }

  lemma CurrentGrows(s: Source, e: Step)
    requires s.dispatcher.maxSize > 0 && Ready(s, e)
    ensures s.current <= Next(s, e).current
  {
  }

  /** Main result: in every run, every player that registered with the current video config
      gets each frame behind the video config frame that was in force when it was published. */
  lemma VideoConfigInForce(maxSize: nat, run: seq<Step>)
    requires LegalRun(NewSource(maxSize), run)
    ensures var s := AfterRun(NewSource(maxSize), run);
            forall r | r in s.current :: r in s.taken && InForce(s, r, MSG_VIDEO)
  {
    NewIsValid(maxSize);
    RunKeeps(NewSource(maxSize), run);
    var s := AfterRun(NewSource(maxSize), run);
    assert forall r | r in s.current :: PlayerRight(s, r);
  }

  // ---------------------------------------------------------------- the source itself

  /** `process_av_packet` with nobody in between. */
  function Processed(s: Source, f: Frame, accepted: bool, free: bool): Source
    requires s.dispatcher.maxSize > 0 && s.begun == None && s.dispatcher.phase.Idle?
  {
    var b := Begun(s, f, accepted, free);
    if b.begun == None then b else Flushed(b)
  }

  /** A whole `distribute` of the frame that has been begun. */
  function Flushed(s: Source): Source
    requires s.dispatcher.maxSize > 0 && s.begun.Some? && s.dispatcher.phase.Idle?
  {
    s.(dispatcher := Distributed(s.dispatcher, Packet(s.begun.value, IsKey(s.begun.value))), begun := None)
  }

  lemma DistributionKeeps(s: Source)
    requires SourceValid(s) && s.begun.Some? && s.dispatcher.phase.Idle?
    ensures s.dispatcher.maxSize > 0 && CacheExact(s.dispatcher) && ReadersExact(s.dispatcher)
    ensures Flushed(s) == Next(Next(Next(s, Distribute), Cache), MergePlayers) && SourceValid(Flushed(s))
  {
    MaxSizePositive(s.dispatcher);
    hide SourceValid;
    StepKeeps(s, Distribute);
    StepKeeps(Next(s, Distribute), Cache);
    StepKeeps(Next(Next(s, Distribute), Cache), MergePlayers);
  }

  class RtmpMediaSource {
    const dispatcher: PacketDispatcher
    var configFrames: map<byte, Frame>
    var registered: bool
    var begun: Option<Frame>
    ghost var published: seq<Frame>
    ghost var early: seq<Frame>
    ghost var taken: map<Reader, seq<Frame>>
    ghost var joined: set<Reader>
    ghost var current: set<Reader>

    ghost function View(): Source
      reads this, dispatcher
    {
      Source(dispatcher.View(), configFrames, registered, begun, published, early, taken, joined, current)
    }

    ghost predicate Valid()
      reads this, dispatcher
    {
      SourceValid(View())
    }

    constructor (maxSize: nat)
      ensures View() == NewSource(maxSize) && Valid() && fresh(dispatcher)
    {
      dispatcher := new PacketDispatcher(maxSize);
      configFrames, registered, begun := map[], false, None;
      published, early, taken, joined, current := [], [], map[], {}, {};
      new;
      NewIsValid(maxSize);
    }

    /** `process_av_packet` up to the call of `distribute`; `accepted` is false when the
        demuxer throws, `free` when `regist` finds no other source under the name. */
    method BeginPacket(f: Frame, accepted: bool, free: bool) returns (ok: bool)
      requires Valid() && begun == None && dispatcher.phase.Idle?
      modifies this
      ensures View() == Begun(old(View()), f, accepted, free) && Valid()
      ensures published == if ok then old(published) + [f] else old(published)
    {
      hide SourceValid, IsConfigFrame;
      StepKeeps(View(), Begin(f, accepted, free));
      if (f.msgType != MSG_AUDIO && f.msgType != MSG_VIDEO) || !accepted || IsConfigFrame(f) == None {
        return false;
      }
      if IsConfigFrame(f) == Some(true) {
        NoteConfig(f);
        ok := true;
      } else {
        ok := NoteOther(f, free);
      }
    }

    method NoteConfig(f: Frame)
      requires begun == None
      modifies this
      ensures configFrames == old(configFrames)[f.msgType := f] && published == old(published) + [f]
      ensures begun == (if registered then Some(f) else None) && early == (if registered then old(early) else old(early) + [f])
      ensures registered == old(registered) && taken == old(taken) && joined == old(joined) && current == old(current)
    {
      configFrames := configFrames[f.msgType := f];
      published := published + [f];
      if !registered {
        early := early + [f];
        return;
      }
      begun := Some(f);
    }

    method NoteOther(f: Frame, free: bool) returns (ok: bool)
      modifies this`registered, this`begun, this`published
      ensures ok == (old(registered) || free) && registered == ok
      ensures begun == (if ok then Some(f) else old(begun)) && published == (if ok then old(published) + [f] else old(published))
    {
      if !registered {
        if !free {
          return false;
        }
        registered := true;
      }
      published := published + [f];
      begun := Some(f);
      return true;
    }

    method ProcessAvPacket(f: Frame, accepted: bool, free: bool) returns (ok: bool)
      requires Valid() && begun == None && dispatcher.phase.Idle?
      modifies this, dispatcher
      ensures old(View()).dispatcher.maxSize > 0 && View() == Processed(old(View()), f, accepted, free) && Valid()
      ensures published == if ok then old(published) + [f] else old(published)
    {
      MaxSizePositive(dispatcher.View());
      hide SourceValid, Begun;
      ok := BeginPacket(f, accepted, free);
      if begun == None {
        return;
      }
      DistributeBegun();
    }

    /** The three parts of `distribute`. */
    method DistributeBegun()
      requires Valid() && begun.Some? && dispatcher.phase.Idle?
      modifies this, dispatcher
      ensures old(View()).dispatcher.maxSize > 0 && Valid()
      ensures View() == Flushed(old(View()))
    {
      hide SourceValid, CacheExact, ReadersExact, Served, Retained, Next;
      DistributionKeeps(View());
      var p := Packet(begun.value, IsVideoKeyframe(begun.value) == Some(true));
      dispatcher.DispatchToActive(p);
      begun := None;
      dispatcher.StorePacket();
      dispatcher.MergeReaders();
    }

    /** `loop_config_frame` as a player calls it. */
    method TakeConfigFrames(r: Reader, audioFirst: bool) returns (frames: seq<Frame>)
      requires Valid() && registered && r !in taken
      modifies this
      ensures old(View()).dispatcher.maxSize > 0 && View() == Next(old(View()), Take(r, audioFirst)) && Valid()
      ensures frames == taken[r]
    {
      MaxSizePositive(dispatcher.View());
      StepKeeps(View(), Take(r, audioFirst));
      frames := ConfigFrames(configFrames, audioFirst);
      taken := taken[r := frames];
    }

    method JoinPlayer(r: Reader)
      requires Valid() && r in taken && r !in joined
      modifies this, dispatcher
      ensures old(View()).dispatcher.maxSize > 0 && View() == Next(old(View()), Join(r)) && Valid()
    {
      MaxSizePositive(dispatcher.View());
      assert PlayersKnown(View());
      StepKeeps(View(), Join(r));
      current := if ConfigIsCurrent(View(), r) then current + {r} else current;
      joined := joined + {r};
      dispatcher.RegistReader(r);
    }
  }
}
