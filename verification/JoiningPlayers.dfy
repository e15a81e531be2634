/** When a player that joins a live source gets every frame behind the config frame that was
    in force when the frame was published: for video and for audio, exactly. */
module JoiningPlayers {
  import opened Bytes
  import opened RtmpPackets
  import opened PacketDispatchers
  import opened RtmpMediaSources

  // ---------------------------------------------------------------- joining at once

  /** Of the frames sent on joining, the last of a kind is the one in the map. */
  lemma LatestOfFrames(configs: map<byte, Frame>, audioFirst: bool)
    requires forall kind | kind in {MSG_AUDIO, MSG_VIDEO} && kind in configs :: IsConfig(configs[kind], kind)
    ensures forall kind | kind in {MSG_AUDIO, MSG_VIDEO} ::
              Latest(ConfigFrames(configs, audioFirst), kind) == if kind in configs then Some(configs[kind]) else None
  {
    hide IsConfigFrame, Latest;
    var audio := if MSG_AUDIO in configs then [configs[MSG_AUDIO]] else [];
    var video := if MSG_VIDEO in configs then [configs[MSG_VIDEO]] else [];
    forall kind | kind in {MSG_AUDIO, MSG_VIDEO}
      ensures Latest(audio, kind) == if kind == MSG_AUDIO && kind in configs then Some(configs[kind]) else None
      ensures Latest(video, kind) == if kind == MSG_VIDEO && kind in configs then Some(configs[kind]) else None
      ensures Latest(ConfigFrames(configs, audioFirst), kind) == if kind in configs then Some(configs[kind]) else None
    {
      LatestOfNone([], kind);
      if MSG_AUDIO in configs {
        LatestOfOne(configs[MSG_AUDIO], kind);
      }
      if MSG_VIDEO in configs {
        LatestOfOne(configs[MSG_VIDEO], kind);
      }
      LatestConcat(audio, video, kind);
      LatestConcat(video, audio, kind);
    }
  }

  /** Taking the config frames and registering at once, a player has the current ones of both
      kinds, whatever the publisher is in the middle of. */
  lemma PromptJoinIsCurrent(s: Source, r: Reader, audioFirst: bool)
    requires SourceValid(s) && Ready(s, Take(r, audioFirst))
    ensures s.dispatcher.maxSize > 0
    ensures var t := Next(s, Take(r, audioFirst));
            && Ready(t, Join(r)) && r in Next(t, Join(r)).current
            && forall kind | kind in {MSG_AUDIO, MSG_VIDEO} :: Latest(t.taken[r], kind) == Latest(t.published, kind)
  {
    hide SourceValid, IsConfigFrame, Latest, ConfigFrames, CacheExact, ReadersExact, Flow;
    ValidParts(s);
    LatestOfFrames(s.configs, audioFirst);
  }

  /** Main result: in every run in which a player takes the config frames and registers in two
      consecutive steps, each frame it gets is behind the video config frame in force when it
      was published. */
  lemma PromptJoinInForce(maxSize: nat, run: seq<Step>, i: nat)
    requires LegalRun(NewSource(maxSize), run) && i + 1 < |run| && run[i].Take? && run[i + 1] == Join(run[i].player)
    ensures var s := AfterRun(NewSource(maxSize), run); run[i].player in s.taken && InForce(s, run[i].player, MSG_VIDEO)
  {
    PromptStaysCurrent(maxSize, run, i);
    VideoConfigInForce(maxSize, run);
  }

  lemma {:induction false} PromptStaysCurrent(maxSize: nat, run: seq<Step>, i: nat)
    requires LegalRun(NewSource(maxSize), run) && i + 1 < |run| && run[i].Take? && run[i + 1] == Join(run[i].player)
    ensures run[i].player in AfterRun(NewSource(maxSize), run).current
    decreases |run|
  {
    hide SourceValid, InForce, Next, Ready, LegalRun, AfterRun, NewSource;
    var o := NewSource(maxSize);
    var before := run[..|run| - 1];
    NewIsValid(maxSize);
    ValidParts(o);
    LastStep(o, run);
    if i + 1 < |before| {
      PromptStaysCurrent(maxSize, before, i);
      CurrentGrows(AfterRun(o, before), run[|run| - 1]);
    } else {
      assert before[..|before| - 1] == run[..i];
      LastStep(o, before);
      RunKeeps(o, run[..i]);
      PromptJoinIsCurrent(AfterRun(o, run[..i]), run[i].player, run[i].audioFirst);
    }
  }

  lemma ValidParts(s: Source)
    requires SourceValid(s)
    ensures s.dispatcher.maxSize > 0 && CacheExact(s.dispatcher) && ReadersExact(s.dispatcher)
    ensures Flow(s) && ConfigsKept(s) && PlayersKnown(s) && s.published == s.early + History(s) + AsSeq(s.begun)
  {
    MaxSizePositive(s.dispatcher);
    hide CacheExact, ReadersExact, ConfigsKept;
  }

  lemma LastStep(s: Source, run: seq<Step>)
    requires s.dispatcher.maxSize > 0 && LegalRun(s, run) && run != []
    ensures LegalRun(s, run[..|run| - 1]) && Ready(AfterRun(s, run[..|run| - 1]), run[|run| - 1])
    ensures AfterRun(s, run) == Next(AfterRun(s, run[..|run| - 1]), run[|run| - 1])
  {
    hide Next, Ready;
  }

  // ---------------------------------------------------------------- nobody is forgotten

  /** What a step of the source is for its dispatcher. */
  function EventOf(s: Source, e: Step): Option<Event>
    requires Ready(s, e)
  {
    match e
    case Distribute => Some(Deliver(Packet(s.begun.value, IsKey(s.begun.value))))
    case Cache => Some(Store)
    case MergePlayers => Some(Merge)
    case Join(r) => Some(Register(r))
    case Part(r) => Some(Leave(r))
    case Detach => Some(DetachAll)
    case _ => None
  }

  /** A source does to its dispatcher that and nothing else, and to a player only what the
      player does itself. */
  lemma StepOfSource(s: Source, e: Step, r: Reader)
    requires s.dispatcher.maxSize > 0 && Ready(s, e)
    ensures var t := Next(s, e);
            && (EventOf(s, e).Some? ==> Enabled(s.dispatcher, EventOf(s, e).value))
            && t.dispatcher == (if EventOf(s, e) == None then s.dispatcher else Apply(s.dispatcher, EventOf(s, e).value))
            && (r in t.joined <==> r in s.joined || e == Join(r))
            && (r in t.taken <==> r in s.taken || (e.Take? && e.player == r))
            && (r in s.taken ==> r in t.taken && t.taken[r] == s.taken[r])
            && (s.registered ==> t.registered)
  {
    hide Apply, Begun;
    if e.Begin? {
      BeginKeepsPlayers(s, e.frame, e.accepted, e.free);
    }
  }

  lemma BeginKeepsPlayers(s: Source, f: Frame, accepted: bool, free: bool)
    ensures var t := Begun(s, f, accepted, free);
            t.dispatcher == s.dispatcher && t.joined == s.joined && t.taken == s.taken && (s.registered ==> t.registered)
  {
  }

  lemma {:induction false} RunServes(s: Source, run: seq<Step>, r: Reader, n: nat)
    requires s.dispatcher.maxSize > 0 && SourceValid(s) && LegalRun(s, run) && Part(r) !in run && Detach !in run
    requires r in s.joined && Due(s.dispatcher, r, n, [])
    ensures var d := AfterRun(s, run).dispatcher;
            r in AfterRun(s, run).joined && Due(d, r, n, []) && (MergePlayers in run ==> r in d.active)
    decreases |run|
  {
    hide SourceValid, Next, Apply, Ready, Enabled, Due, EventOf, CacheExact, ReadersExact, ConfigsKept, LegalRun, AfterRun, Flow;
    if run == [] {
      EmptyRun(s);
    } else {
      var before, e := run[..|run| - 1], run[|run| - 1];
      assert run == before + [e];
      assert forall x | x in before :: x in run;
      assert e in run;
      LastStep(s, run);
      RunServes(s, before, r, n);
      RunKeeps(s, before);
      var t := AfterRun(s, before);
      ValidParts(t);
      StepServes(t, e, r, n);
    }
  }

  lemma StepServes(s: Source, e: Step, r: Reader, n: nat)
    requires s.dispatcher.maxSize > 0 && CacheExact(s.dispatcher) && Ready(s, e) && e != Part(r) && e != Detach
    requires r in s.joined && Due(s.dispatcher, r, n, [])
    ensures var t := Next(s, e);
            r in t.joined && Due(t.dispatcher, r, n, []) && (r in s.dispatcher.active || e == MergePlayers ==> r in t.dispatcher.active)
  {
    hide Next, Apply, Enabled, Due, CacheExact;
    StepOfSource(s, e, r);
    if EventOf(s, e).Some? {
      StepDue(s.dispatcher, EventOf(s, e).value, r, n, []);
      if r in s.dispatcher.active {
        PacketDispatchers.StaysActive(s.dispatcher, EventOf(s, e).value, r, n, []);
      }
    }
  }

  /** Main result: a player that joins at any moment, and does not leave and is not detached,
      is pending until the next distribution is over, and from then on, in every continuation,
      it has every packet distributed since it joined. */
  lemma JoinedIsServed(s: Source, r: Reader, run: seq<Step>)
    requires SourceValid(s) && Ready(s, Join(r))
    requires s.dispatcher.maxSize > 0 && LegalRun(Next(s, Join(r)), run) && Part(r) !in run && Detach !in run
    ensures var d := AfterRun(Next(s, Join(r)), run).dispatcher;
            && (r in d.pending || r in d.active)
            && (MergePlayers in run ==> r in d.active)
            && (r in d.active ==> ServedSince(ReceivedBy(d.received, r), [], d.history, |s.dispatcher.history|))
  {
    hide SourceValid, LegalRun, AfterRun, CacheExact, ConfigsKept, ServedSince, UpToDate, Contiguous;
    ValidParts(s);
    StepKeeps(s, Join(r));
    RunServes(Next(s, Join(r)), run, r, |s.dispatcher.history|);
  }

  // ---------------------------------------------------------------- joining later

  ghost predicate StaysRight(s: Source, r: Reader, kind: byte)
    requires s.dispatcher.maxSize > 0 && r in s.taken
  {
    forall run | LegalRun(s, run) :: r in AfterRun(s, run).taken && InForce(AfterRun(s, run), r, kind)
  }

  /** Registered, and between two packets. */
  predicate Resting(s: Source) {
    s.registered && s.begun == None && s.dispatcher.phase.Idle?
  }

  /** A whole `process_av_packet` with nobody in between. */
  function Published(s: Source, f: Frame): Source
    requires s.dispatcher.maxSize > 0 && s.dispatcher.phase.Idle?
  {
    s.(dispatcher := Distributed(s.dispatcher, Packet(f, IsKey(f))), published := s.published + [f],
       configs := if IsConfigFrame(f) == Some(true) then s.configs[f.msgType := f] else s.configs)
  }

  lemma PublishAlone(o: Source, before: seq<Step>, f: Frame) returns (run: seq<Step>)
    requires o.dispatcher.maxSize > 0 && LegalRun(o, before) && Resting(AfterRun(o, before))
    requires IsConfigFrame(f).Some? && f.msgType in {MSG_AUDIO, MSG_VIDEO}
    ensures LegalRun(o, run) && AfterRun(o, run) == Published(AfterRun(o, before), f)
    ensures before <= run && Resting(AfterRun(o, run))
  {
    hide IsConfigFrame, IsVideoKeyframe, LegalRun, AfterRun;
    var s := AfterRun(o, before);
    var s1 := Next(s, Begin(f, true, true));
    var s2 := Next(s1, Distribute);
    var s3 := Next(s2, Cache);
    var s4 := Next(s3, MergePlayers);
    run := ExtendRun(o, before, Begin(f, true, true), s1);
    run := ExtendRun(o, run, Distribute, s2);
    run := ExtendRun(o, run, Cache, s3);
    run := ExtendRun(o, run, MergePlayers, s4);
  }

  /** Between two packets: the player was sent the config frame that is the latest now, and
      the part of the cache that the next packet will not push out starts with a config frame,
      or with a frame published under the one the player was sent. */
  predicate JoinsRight(s: Source, r: Reader, kind: byte)
    requires r in s.taken && s.dispatcher.maxSize > 0
  {
    var h := History(s);
    var k := Retained(s.dispatcher.cache, s.dispatcher.maxSize, false);
    && Latest(s.taken[r], kind) == Latest(s.published, kind)
    && |k| <= |h|
    && (k == [] || IsConfig(k[0].frame, kind) || Latest(s.early + h[..|h| - |k|], kind) == Latest(s.taken[r], kind))
  }

  predicate Between(s: Source) {
    s.begun == None && s.dispatcher.phase.Idle?
  }

  /** The history once the frame under way is in it. */
  function Upcoming(s: Source): seq<Frame> {
    History(s) + AsSeq(s.begun)
  }

  /** Where in it the cache will start when the distribution under way comes to its end. */
  function FrontOf(s: Source): int
    requires s.dispatcher.maxSize > 0
  {
    var d := s.dispatcher;
    if s.begun.Some? then |d.history| - |Retained(d.cache, d.maxSize, IsKey(s.begun.value))|
    else if d.phase.Delivered? then |d.history| - 1 - |Retained(d.cache, d.maxSize, d.phase.packet.idr)|
    else |d.history| - |d.cache|
  }

  ghost predicate RightFrom(s: Source, r: Reader, kind: byte, h: seq<Frame>, a: int)
    requires r in s.taken
  {
    0 <= a < |h| && (IsConfig(h[a], kind) || Latest(s.taken[r], kind) == Latest(s.early + h[..a], kind))
  }

  /** What decides whether a player that registers now is right about `kind`: between two
      packets `JoinsRight`; while one is under way, the frame its distribution will start the
      cache with. */
  ghost predicate JoinsRightNow(s: Source, r: Reader, kind: byte)
    requires s.dispatcher.maxSize > 0 && r in s.taken
  {
    if Between(s) then JoinsRight(s, r, kind) else RightFrom(s, r, kind, Upcoming(s), FrontOf(s))
  }

  /** Whatever comes, the player will be right about `kind`. */
  ghost predicate Destined(s: Source, r: Reader, kind: byte)
    requires s.dispatcher.maxSize > 0
  {
    && r in s.taken && r in s.joined
    && (r in s.dispatcher.pending ==> JoinsRightNow(s, r, kind))
    && (r in s.dispatcher.active ==> InForceNow(s, r, kind))
    && InForce(s, r, kind)
  }

  lemma RetainedIsTail(cache: seq<Packet>, max: nat, idr: bool)
    requires max > 0
    ensures var k := Retained(cache, max, idr); |k| <= |cache| && k == cache[|cache| - |k|..]
  {
  }

  lemma CacheIsTail(d: State)
    requires CacheExact(d)
    ensures |d.cache| <= |Cached(d)| && d.cache == Cached(d)[|Cached(d)| - |d.cache|..]
  {
    hide SinceKey;
  }

  /** What the next packet will find in front of it is the end of the history. */
  lemma RetainedInHistory(d: State, idr: bool)
    requires CacheExact(d) && !d.phase.Delivered?
    ensures var k := Retained(d.cache, d.maxSize, idr);
            |k| <= |d.history| && k == d.history[|d.history| - |k|..]
  {
    CacheIsTail(d);
    MaxSizePositive(d);
    hide CacheExact, Retained;
    RetainedIsTail(d.cache, d.maxSize, idr);
  }

  lemma BeginDestined(s: Source, f: Frame, accepted: bool, free: bool, r: Reader, kind: byte)
    requires SourceValid(s) && s.dispatcher.maxSize > 0 && Ready(s, Begin(f, accepted, free)) && Destined(s, r, kind)
    ensures Destined(Begun(s, f, accepted, free), r, kind)
  {
    hide SourceValid, InForce, InForceNow, Latest, IsConfig, CacheExact, ReadersExact, ConfigsKept, IsConfigFrame, Retained, JoinsRight, RightFrom;
    ValidParts(s);
    var t := Begun(s, f, accepted, free);
    SameView(s, t, r, kind);
    if r in s.dispatcher.pending && t.begun == Some(f) {
      FrontAfterBegin(s, t, f, r, kind);
    }
  }

  lemma FrontAfterBegin(s: Source, t: Source, f: Frame, r: Reader, kind: byte)
    requires CacheExact(s.dispatcher) && s.dispatcher.maxSize > 0 && Between(s) && s.published == s.early + History(s)
    requires r in s.taken && JoinsRight(s, r, kind)
    requires t.dispatcher == s.dispatcher && t.begun == Some(f) && t.early == s.early && r in t.taken && t.taken[r] == s.taken[r]
    ensures RightFrom(t, r, kind, Upcoming(t), FrontOf(t))
  {
    hide Latest, IsConfig, CacheExact, Retained;
    var d, h := s.dispatcher, History(s);
    var k := Retained(d.cache, d.maxSize, IsKey(f));
    var a := |h| - |k|;
    RetainedInHistory(d, IsKey(f));
    if k == [] {
      assert Upcoming(t)[a] == f && Upcoming(t)[..a] == h;
    } else {
      KeyRetainsNothing(d.cache, d.maxSize, IsKey(f));
      assert Upcoming(t)[a] == h[a] == k[0].frame && Upcoming(t)[..a] == h[..a];
    }
  }

  lemma KeyRetainsNothing(cache: seq<Packet>, max: nat, idr: bool)
    requires max > 0
    ensures idr ==> Retained(cache, max, idr) == []
  {
  }

  lemma DistributeDestined(s: Source, r: Reader, kind: byte)
    requires s.dispatcher.maxSize > 0 && Ready(s, Distribute) && Destined(s, r, kind)
    ensures Destined(Next(s, Distribute), r, kind)
  {
    hide InForce, InForceNow, Latest, IsConfig, Retained;
    DistributeKeeps(s, r, kind);
    var p := Packet(s.begun.value, IsKey(s.begun.value));
    FramesSnoc(s.dispatcher.history, p);
    assert Upcoming(Next(s, Distribute)) == Upcoming(s);
  }

  lemma CacheDestined(s: Source, r: Reader, kind: byte)
    requires s.dispatcher.maxSize > 0 && Ready(s, Cache) && s.begun == None && Destined(s, r, kind)
    ensures Destined(Next(s, Cache), r, kind)
  {
    hide InForce, InForceNow, Latest, IsConfig, Retained;
    SameView(s, Next(s, Cache), r, kind);
  }

  lemma MergeDestined(s: Source, r: Reader, kind: byte)
    requires SourceValid(s) && s.dispatcher.maxSize > 0 && Ready(s, MergePlayers) && Destined(s, r, kind)
    ensures Destined(Next(s, MergePlayers), r, kind)
  {
    hide SourceValid, InForce, InForceNow, Latest, IsConfig, Retained, Served, CacheExact, ReadersExact, ConfigsKept, JoinsRight;
    ValidParts(s);
    var t := Next(s, MergePlayers);
    if r in s.dispatcher.pending {
      var a := CacheStart(s.dispatcher);
      assert Upcoming(s) == History(s);
      FramesFrom(s.dispatcher.history, a);
      ServedFromCache(t, r, a, kind);
      NowIsInForce(t, r, kind);
    } else {
      OthersUnserved(s.dispatcher, r);
      SameView(s, t, r, kind);
    }
  }

  lemma OthersUnserved(d: State, r: Reader)
    requires d.maxSize > 0 && d.phase.Stored? && r !in d.pending
    ensures ReceivedBy(Apply(d, Merge).received, r) == ReceivedBy(d.received, r)
  {
  }

  /** Players that come and go change nothing for one that has joined. */
  lemma GuestsDestined(s: Source, e: Step, r: Reader, kind: byte)
    requires s.dispatcher.maxSize > 0 && Ready(s, e) && Destined(s, r, kind)
    requires e.Take? || e.Join? || e.Part? || e.Detach?
    ensures Destined(Next(s, e), r, kind)
  {
    hide InForce, InForceNow, Latest, IsConfig, Retained, Frames;
    SameView(s, Next(s, e), r, kind);
  }

  lemma StepDestined(s: Source, e: Step, r: Reader, kind: byte)
    requires SourceValid(s) && s.dispatcher.maxSize > 0 && Ready(s, e) && Destined(s, r, kind)
    ensures Destined(Next(s, e), r, kind)
  {
    hide SourceValid, Destined, CacheExact, ReadersExact, ConfigsKept, Begun;
    ValidParts(s);
    match e
    case Begin(f, accepted, free) => BeginDestined(s, f, accepted, free, r, kind);
    case Distribute => DistributeDestined(s, r, kind);
    case Cache => CacheDestined(s, r, kind);
    case MergePlayers => MergeDestined(s, r, kind);
    case _ => GuestsDestined(s, e, r, kind);
  }

  lemma {:induction false} RunDestined(s: Source, run: seq<Step>, r: Reader, kind: byte)
    requires s.dispatcher.maxSize > 0 && SourceValid(s) && LegalRun(s, run) && Destined(s, r, kind)
    ensures Destined(AfterRun(s, run), r, kind)
    decreases |run|
  {
    hide SourceValid, Destined, Next, Ready;
    if run != [] {
      RunDestined(s, run[..|run| - 1], r, kind);
      RunKeeps(s, run[..|run| - 1]);
      StepDestined(AfterRun(s, run[..|run| - 1]), run[|run| - 1], r, kind);
    }
  }

  // ---------------------------------------------------------------- and only then

  /** There is always a key frame without parameter sets that has not been published before. */
  lemma NewKeyPicture(h: seq<Frame>) returns (f: Frame)
    ensures f !in h && IsKey(f) && IsConfigFrame(f) == Some(false) && f.msgType == MSG_VIDEO
  {
    var n := Longest(h);
    f := Frame(MSG_VIDEO, [0x17, 1] + seq(n, _ => 0), 0);
    LongestBounds(h);
  }

  function Longest(h: seq<Frame>): nat {
    if h == [] then 0 else Longest(h[..|h| - 1]) + |h[|h| - 1].body|
  }

  lemma {:induction false} LongestBounds(h: seq<Frame>)
    ensures forall f | f in h :: |f.body| <= Longest(h)
    decreases |h|
  {
    if h != [] {
      LongestBounds(h[..|h| - 1]);
      assert h == h[..|h| - 1] + [h[|h| - 1]];
    }
  }

  /** And a frame that is neither a key frame nor a config frame. */
  lemma NewSound(h: seq<Frame>) returns (f: Frame)
    ensures f !in h && !IsKey(f) && IsConfigFrame(f) == Some(false) && f.msgType == MSG_AUDIO
  {
    var n := Longest(h);
    f := Frame(MSG_AUDIO, [0xA0, 1] + seq(n, _ => 0), 0);
    LongestBounds(h);
  }

  lemma ExtendRun(s: Source, run: seq<Step>, e: Step, t: Source) returns (more: seq<Step>)
    requires s.dispatcher.maxSize > 0 && LegalRun(s, run) && Ready(AfterRun(s, run), e) && t == Next(AfterRun(s, run), e)
    ensures more == run + [e] && LegalRun(s, more) && AfterRun(s, more) == t
  {
    more := run + [e];
    assert more[..|more| - 1] == run;
  }

  /** A block that ends in a frame published only once is at the end of the history. */
  lemma BlockAtEnd(h: seq<Frame>, f: Frame, a: nat, got: seq<Frame>, a': nat, b': nat)
    requires f !in h && a <= |h| && got == (h + [f])[a..] && a' <= b' <= |h| + 1 && got == (h + [f])[a'..b']
    ensures a' == a && b' == |h| + 1
  {
    assert got[|got| - 1] == f;
    assert (h + [f])[b' - 1] == f;
  }

  /** What a pending player is served with the next packet is the history from where the
      retained part of the cache starts, and reading it from there is right exactly under the
      condition on that frame; if the packet was not published before, no other reading of what
      the player got is right either. */
  lemma PublishedRightIff(s: Source, r: Reader, f: Frame, kind: byte)
    requires SourceValid(s) && Resting(s) && r in s.taken && r in s.dispatcher.pending
    ensures s.dispatcher.maxSize > 0
    ensures var k := Retained(s.dispatcher.cache, s.dispatcher.maxSize, IsKey(f));
            var t := Published(s, f);
            var h := History(t);
            var a := |History(s)| - |k|;
            && 0 <= a < |h| && h == History(s) + [f] && GotFrames(t, r) == h[a..] && r in t.taken
            && (Follows(s.taken[r], s.early, h, a, |h|, kind) <==>
                  IsConfig(h[a], kind) || Latest(s.taken[r], kind) == Latest(s.early + h[..a], kind))
            && (f !in History(s) ==> (InForce(t, r, kind) <==> Follows(s.taken[r], s.early, h, a, |h|, kind)))
  {
    hide SourceValid, CacheExact, ReadersExact, ConfigsKept, Latest, IsConfig, Retained, Published, InForce, Frames, Follows;
    ValidParts(s);
    RetainedInHistory(s.dispatcher, IsKey(f));
    var k := Retained(s.dispatcher.cache, s.dispatcher.maxSize, IsKey(f));
    PublishedHistory(s, f, r, k);
    SameLength(s);
    var a := |History(s)| - |k|;
    ServedFromIff(s.taken[r], s.early, History(s) + [f], a, kind);
    if f !in History(s) {
      FreshFrameIff(Published(s, f), r, History(s), f, a, kind);
    }
  }

  lemma SameLength(s: Source)
    ensures |History(s)| == |s.dispatcher.history|
  {
  }

  /** A player whose frames are the history from `a` on, the last of them published once. */
  lemma FreshFrameIff(t: Source, r: Reader, h: seq<Frame>, f: Frame, a: nat, kind: byte)
    requires r in t.taken && f !in h && a <= |h| && History(t) == h + [f] && GotFrames(t, r) == (h + [f])[a..]
    ensures InForce(t, r, kind) <==>
              IsConfig(History(t)[a], kind) || Latest(t.taken[r], kind) == Latest(t.early + History(t)[..a], kind)
  {
    hide Latest, IsConfig, Follows, History, GotFrames;
    var h', got := History(t), GotFrames(t, r);
    ServedFromIff(t.taken[r], t.early, h', a, kind);
    assert h'[a..|h'|] == h'[a..];
    if InForce(t, r, kind) {
      var a': nat, b': nat :| BlockRight(t.taken[r], t.early, h', got, a', b', kind);
      FollowsBounds(t.taken[r], t.early, h', a', b', kind);
      BlockAtEnd(h, f, a, got, a', b');
    }
    if Follows(t.taken[r], t.early, h', a, |h'|, kind) {
      assert BlockRight(t.taken[r], t.early, h', got, a, |h'|, kind);
    }
  }

  lemma PublishedHistory(s: Source, f: Frame, r: Reader, k: seq<Packet>)
    requires s.dispatcher.maxSize > 0 && s.dispatcher.phase.Idle? && ReadersExact(s.dispatcher) && r in s.dispatcher.pending
    requires k == Retained(s.dispatcher.cache, s.dispatcher.maxSize, IsKey(f))
    requires |k| <= |s.dispatcher.history| && k == s.dispatcher.history[|s.dispatcher.history| - |k|..]
    ensures var t := Published(s, f);
            && History(t) == History(s) + [f] && GotFrames(t, r) == History(t)[|History(s)| - |k|..]
            && t.taken == s.taken && t.early == s.early
  {
    hide IsKey, IsConfigFrame, Retained, Frames, ReadersExact;
    var d := s.dispatcher;
    var p := Packet(f, IsKey(f));
    PendingGetsCache(d, p, r);
    FramesSnoc(d.history, p);
    FramesSnoc(k, p);
    FramesFrom(d.history, |d.history| - |k|);
    SameLength(s);
    assert Frames(d.history)[|d.history| - |k|..] + [f] == (Frames(d.history) + [f])[|d.history| - |k|..];
  }

  lemma PendingGetsCache(d: State, p: Packet, r: Reader)
    requires d.maxSize > 0 && d.phase.Idle? && ReadersExact(d) && r in d.pending
    ensures ReceivedBy(Distributed(d, p).received, r) == Retained(d.cache, d.maxSize, p.idr) + [p]
  {
    hide UpToDate, Contiguous, Retained;
  }

  /** Main result: a player registering at any moment, between two packets or while one is
      under way, stays right about a kind of frame in every continuation if and only if
      `JoinsRightNow` holds when it registers. */
  lemma JoinRightIff(s: Source, r: Reader, kind: byte)
    requires SourceValid(s) && Ready(s, Join(r)) && kind in {MSG_AUDIO, MSG_VIDEO}
    ensures s.dispatcher.maxSize > 0
    ensures StaysRight(Next(s, Join(r)), r, kind) <==> JoinsRightNow(s, r, kind)
  {
    hide SourceValid, InForce, JoinsRight, RightFrom, LegalRun, AfterRun, CacheExact, ReadersExact, ConfigsKept;
    ValidParts(s);
    var t := Next(s, Join(r));
    StepKeeps(s, Join(r));
    JustJoined(s, r, kind);
    if JoinsRightNow(s, r, kind) {
      forall run | LegalRun(t, run)
        ensures r in AfterRun(t, run).taken && InForce(AfterRun(t, run), r, kind)
      {
        RunDestined(t, run, r, kind);
      }
    } else if Between(t) {
      var run := WrongRun(t, r, kind);
    } else {
      var run := WrongUnderWay(t, r, kind);
    }
  }

  lemma JustJoined(s: Source, r: Reader, kind: byte)
    requires SourceValid(s) && s.dispatcher.maxSize > 0 && Ready(s, Join(r))
    ensures var t := Next(s, Join(r));
            && t.registered && (Between(t) <==> Between(s)) && r in t.taken && r in t.dispatcher.pending
            && (JoinsRightNow(t, r, kind) <==> JoinsRightNow(s, r, kind))
            && (JoinsRightNow(s, r, kind) ==> Destined(t, r, kind))
  {
    hide SourceValid, InForce, InForceNow, Latest, IsConfig, Retained, ConfigsKept, CacheExact, UpToDate, Contiguous;
    ValidParts(s);
    NothingGot(Next(s, Join(r)), r, kind);
  }

  /** A key picture shows that the player's config frame is not the latest; another frame that
      the cache starts under a different one. */
  lemma WrongRun(s: Source, r: Reader, kind: byte) returns (run: seq<Step>)
    requires SourceValid(s) && Resting(s) && r in s.taken && r in s.dispatcher.pending && kind in {MSG_AUDIO, MSG_VIDEO}
    requires s.dispatcher.maxSize > 0 && !JoinsRight(s, r, kind)
    ensures LegalRun(s, run) && r in AfterRun(s, run).taken && !InForce(AfterRun(s, run), r, kind)
  {
    hide SourceValid, InForce, Latest, LegalRun, AfterRun, IsConfigFrame, IsVideoKeyframe, CacheExact, ReadersExact, ConfigsKept, Retained, Published, Frames, JoinsRight;
    ValidParts(s);
    RetainedInHistory(s.dispatcher, false);
    EmptyRun(s);
    var h := History(s);
    var f: Frame;
    if Latest(s.taken[r], kind) != Latest(s.published, kind) {
      f := NewKeyPicture(h);
    } else {
      f := NewSound(h);
    }
    run := PublishAlone(s, [], f);
    assert !IsConfig(f, kind);
    KeyRetainsNothing(s.dispatcher.cache, s.dispatcher.maxSize, IsKey(f));
    PublishedRightIff(s, r, f, kind);
    WrongFront(s, r, f, kind);
  }

  lemma WrongFront(s: Source, r: Reader, f: Frame, kind: byte)
    requires s.dispatcher.maxSize > 0 && r in s.taken && !JoinsRight(s, r, kind) && s.published == s.early + History(s)
    requires var k := Retained(s.dispatcher.cache, s.dispatcher.maxSize, false);
             |k| <= |s.dispatcher.history| && k == s.dispatcher.history[|s.dispatcher.history| - |k|..]
    requires IsKey(f) <==> Latest(s.taken[r], kind) != Latest(s.published, kind)
    requires !IsConfig(f, kind)
    ensures var h := History(s);
            var a := |h| - |Retained(s.dispatcher.cache, s.dispatcher.maxSize, IsKey(f))|;
            && 0 <= a <= |h| && !IsConfig((h + [f])[a], kind) && Latest(s.taken[r], kind) != Latest(s.early + (h + [f])[..a], kind)
  {
    hide Latest, IsConfig;
    var h := History(s);
    var a := |h| - |Retained(s.dispatcher.cache, s.dispatcher.maxSize, IsKey(f))|;
    assert (h + [f])[..a] == h[..a] && h[..|h|] == h;
  }

  // ---------------------------------------------------------------- a packet under way

  /** The distribution under way, up to its last part: where the cache will start does not
      move, and neither does anything else the condition is about. */
  ghost predicate SameOutlook(s: Source, t: Source)
    requires s.dispatcher.maxSize > 0 && t.dispatcher.maxSize > 0
  {
    && Upcoming(t) == Upcoming(s) && FrontOf(t) == FrontOf(s) && t.dispatcher.pending == s.dispatcher.pending
    && t.taken == s.taken && t.early == s.early && t.published == s.published && t.registered == s.registered
  }

  lemma DistributeOutlook(s: Source)
    requires s.dispatcher.maxSize > 0 && Ready(s, Distribute)
    ensures var t := Next(s, Distribute); t.dispatcher.maxSize > 0 && SameOutlook(s, t) && t.dispatcher.phase.Delivered? && t.begun == None
  {
    hide Retained, IsKey, Served;
    FramesSnoc(s.dispatcher.history, Packet(s.begun.value, IsKey(s.begun.value)));
  }

  lemma CacheOutlook(s: Source)
    requires s.dispatcher.maxSize > 0 && Ready(s, Cache) && s.begun == None
    ensures var t := Next(s, Cache); t.dispatcher.maxSize > 0 && SameOutlook(s, t) && t.dispatcher.phase.Stored? && t.begun == None
  {
    hide Retained;
  }

  lemma UpToMerge(s: Source) returns (run: seq<Step>, t: Source)
    requires SourceValid(s) && !Between(s)
    ensures s.dispatcher.maxSize > 0 && LegalRun(s, run) && AfterRun(s, run) == t
    ensures SourceValid(t) && t.dispatcher.maxSize > 0 && t.dispatcher.phase.Stored? && t.begun == None && SameOutlook(s, t)
  {
    hide SourceValid, LegalRun, AfterRun, Next, SameOutlook, CacheExact, ReadersExact, ConfigsKept;
    ValidParts(s);
    EmptyRun(s);
    SameAsItself(s);
    run, t := [], s;
    if t.begun.Some? {
      StepKeeps(t, Distribute);
      DistributeOutlook(t);
      run := ExtendRun(s, run, Distribute, Next(t, Distribute));
      t := Next(t, Distribute);
    }
    if t.dispatcher.phase.Delivered? {
      StepKeeps(t, Cache);
      CacheOutlook(t);
      OutlookCarries(s, t, Next(t, Cache));
      run := ExtendRun(s, run, Cache, Next(t, Cache));
      t := Next(t, Cache);
    }
  }

  lemma SameAsItself(s: Source)
    requires s.dispatcher.maxSize > 0
    ensures SameOutlook(s, s)
  {
  }

  lemma OutlookCarries(s: Source, t: Source, u: Source)
    requires s.dispatcher.maxSize > 0 && t.dispatcher.maxSize > 0 && u.dispatcher.maxSize > 0
    requires SameOutlook(s, t) && SameOutlook(t, u)
    ensures SameOutlook(s, u)
  {
  }

  /** The last part serves a pending player from where the cache starts. */
  lemma MergedFrom(s: Source, r: Reader)
    requires SourceValid(s) && s.dispatcher.maxSize > 0 && s.dispatcher.phase.Stored? && s.begun == None
    requires r in s.dispatcher.pending
    ensures var t := Next(s, MergePlayers);
            && Between(t) && r in t.dispatcher.active && r !in t.dispatcher.pending
            && History(t) == Upcoming(s) && 0 <= FrontOf(s) < |Upcoming(s)| && GotFrames(t, r) == Upcoming(s)[FrontOf(s)..]
            && t.taken == s.taken && t.early == s.early && t.registered == s.registered
  {
    hide SourceValid, CacheExact, ReadersExact, ConfigsKept, Frames, Served;
    ValidParts(s);
    var a := CacheStart(s.dispatcher);
    FramesFrom(s.dispatcher.history, a);
    SameLength(s);
    assert Upcoming(s) == History(s);
  }

  /** An active player gets the next packet behind what it has. */
  lemma ActiveGetsMore(s: Source, r: Reader, f: Frame)
    requires s.dispatcher.maxSize > 0 && Between(s) && r in s.dispatcher.active && r !in s.dispatcher.pending
    ensures var t := Published(s, f);
            GotFrames(t, r) == GotFrames(s, r) + [f] && History(t) == History(s) + [f] && t.taken == s.taken && t.early == s.early
  {
    hide Frames, Retained, IsKey, IsConfigFrame;
    var p := Packet(f, IsKey(f));
    FramesSnoc(s.dispatcher.history, p);
    FramesSnoc(ReceivedBy(s.dispatcher.received, r), p);
  }

  /** When the packet is out the player has frames from where the cache started, and one that
      was not published before shows that no other reading of them is right. */
  lemma WrongUnderWay(s: Source, r: Reader, kind: byte) returns (run: seq<Step>)
    requires SourceValid(s) && !Between(s) && s.registered && r in s.taken && r in s.dispatcher.pending
    requires s.dispatcher.maxSize > 0 && !RightFrom(s, r, kind, Upcoming(s), FrontOf(s))
    ensures LegalRun(s, run) && r in AfterRun(s, run).taken && !InForce(AfterRun(s, run), r, kind)
  {
    hide SourceValid, LegalRun, AfterRun, Next, Published, InForce, Latest, IsConfig, IsConfigFrame, IsVideoKeyframe, FrontOf, Upcoming, History, GotFrames;
    var t: Source;
    run, t := UpToMerge(s);
    MergedFrom(t, r);
    var u := Next(t, MergePlayers);
    run := ExtendRun(s, run, MergePlayers, u);
    var h, a := History(u), FrontOf(s);
    var f := NewSound(h);
    run := PublishAlone(s, run, f);
    ActiveGetsMore(u, r, f);
    assert h[a..] + [f] == (h + [f])[a..];
    FreshFrameIff(Published(u, f), r, h, f, a, kind);
    assert (h + [f])[a] == h[a] && (h + [f])[..a] == h[..a];
  }

  // ---------------------------------------------------------------- video

  /** A packet is under way whose distribution will start the cache with a video config. */
  predicate ConfigInFront(s: Source)
    requires s.dispatcher.maxSize > 0
  {
    !Between(s) && 0 <= FrontOf(s) < |Upcoming(s)| && IsConfig(Upcoming(s)[FrontOf(s)], MSG_VIDEO)
  }

  /** Main result: about video, whenever it registers, the player must have been sent the
      latest config frame or be about to get one in front, since video config frames are only
      in front of the cache. */
  lemma VideoJoinRightIff(s: Source, r: Reader)
    requires SourceValid(s) && Ready(s, Join(r))
    ensures s.dispatcher.maxSize > 0
    ensures StaysRight(Next(s, Join(r)), r, MSG_VIDEO) <==>
              Latest(s.taken[r], MSG_VIDEO) == Latest(s.published, MSG_VIDEO) || ConfigInFront(s)
  {
    hide SourceValid, StaysRight, Latest, IsConfig, CacheExact, ReadersExact, Retained, JoinsRight, RightFrom, Frames, FrontOf, Upcoming, ConfigInFront;
    ValidParts(s);
    JoinRightIff(s, r, MSG_VIDEO);
    if Between(s) {
      RetainedInHistory(s.dispatcher, false);
      VideoFront(s, r);
      NothingInFront(s);
    } else {
      VideoUnderWay(s, r);
    }
  }

  lemma NothingInFront(s: Source)
    requires s.dispatcher.maxSize > 0 && Between(s)
    ensures !ConfigInFront(s)
  {
  }

  lemma VideoUnderWay(s: Source, r: Reader)
    requires SourceValid(s) && s.dispatcher.maxSize > 0 && !Between(s) && r in s.taken
    ensures RightFrom(s, r, MSG_VIDEO, Upcoming(s), FrontOf(s)) <==>
              Latest(s.taken[r], MSG_VIDEO) == Latest(s.published, MSG_VIDEO) || ConfigInFront(s)
  {
    hide SourceValid, LegalRun, AfterRun, Latest, IsConfig, CacheExact, ReadersExact, Retained, Frames;
    ValidParts(s);
    var run, t := UpToMerge(s);
    ValidParts(t);
    var a := CacheStart(t.dispatcher);
    SameLength(t);
    CachedFrames(t, a);
    assert Upcoming(t) == History(t);
    OnlyFrontCounts(s.early, Upcoming(s), a);
    assert s.published == s.early + Upcoming(s);
  }

  /** With no later config frame, the one in force at the front is the latest. */
  lemma OnlyFrontCounts(early: seq<Frame>, h: seq<Frame>, a: nat)
    requires a < |h| && forall i | a < i < |h| :: !IsConfig(h[i], MSG_VIDEO)
    ensures IsConfig(h[a], MSG_VIDEO) || Latest(early + h[..a], MSG_VIDEO) == Latest(early + h, MSG_VIDEO)
  {
    hide Latest, IsConfig;
    FrontIsRight(early + h, early, h, a);
  }

  lemma VideoFront(s: Source, r: Reader)
    requires s.dispatcher.maxSize > 0 && r in s.taken && s.published == s.early + History(s) && OnlyInFront(s.dispatcher.cache)
    requires var k := Retained(s.dispatcher.cache, s.dispatcher.maxSize, false);
             |k| <= |s.dispatcher.history| && k == s.dispatcher.history[|s.dispatcher.history| - |k|..]
    ensures JoinsRight(s, r, MSG_VIDEO) <==> Latest(s.taken[r], MSG_VIDEO) == Latest(s.published, MSG_VIDEO)
  {
    hide Latest, IsConfig, Retained;
    var d, h := s.dispatcher, History(s);
    var k := Retained(d.cache, d.maxSize, false);
    RetainedIsTail(d.cache, d.maxSize, false);
    if k != [] && Latest(s.taken[r], MSG_VIDEO) == Latest(s.published, MSG_VIDEO) {
      var a := |h| - |k|;
      assert forall i | a < i < |h| :: h[i] == k[i - a].frame == d.cache[|d.cache| - |k| + i - a].frame;
      FrontIsRight(s.taken[r], s.early, h, a);
    }
  }

  // ---------------------------------------------------------------- audio

  /** An audio config frame that has not been published before. */
  lemma NewAudioConfig(h: seq<Frame>) returns (f: Frame)
    ensures f !in h && IsConfigFrame(f) == Some(true) && f.msgType == MSG_AUDIO
  {
    var n := Longest(h);
    f := Frame(MSG_AUDIO, [0xA0, 0] + seq(n, _ => 0), 0);
    LongestBounds(h);
  }

  /** About audio it is not enough: audio config frames do not clear the cache. From every
      state between two packets there is a run in which a new player registers with the current
      audio config frame and is then sent an older frame behind it. */
  lemma AudioConfigMayBeWrong(s: Source, r: Reader) returns (joined: seq<Step>, run: seq<Step>)
    requires SourceValid(s) && Resting(s) && r !in s.taken
    ensures s.dispatcher.maxSize > 0
    ensures LegalRun(s, joined)
            && (var t := AfterRun(s, joined);
                r in t.dispatcher.pending && r in t.taken && Latest(t.taken[r], MSG_AUDIO) == Latest(t.published, MSG_AUDIO))
    ensures LegalRun(s, run) && joined <= run && r in AfterRun(s, run).taken && !InForce(AfterRun(s, run), r, MSG_AUDIO)
  {
    hide InForce, Latest, LegalRun, AfterRun, IsConfigFrame, IsVideoKeyframe, Published, SourceValid, CacheExact, ReadersExact, ConfigsKept;
    ValidParts(s);
    var key := NewKeyPicture(History(s));
    var config := NewAudioConfig(s.published + [key]);
    assert key != config && !IsConfig(key, MSG_AUDIO) && config !in s.published;
    joined := JoinBehind(s, key, config, r);
    RunKeeps(s, joined);
    var t := AfterRun(s, joined);
    var sound := NewSound(History(t));
    run := PublishAlone(s, joined, sound);
    PublishedRightIff(t, r, sound, MSG_AUDIO);
    BehindIsWrong(s, t, key, config, sound, r);
  }

  lemma BehindIsWrong(s: Source, t: Source, key: Frame, config: Frame, sound: Frame, r: Reader)
    requires JoinedBehind(s, t, key, config, r) && s.published == s.early + History(s)
    requires config !in s.published && !IsKey(sound)
    ensures var k := Retained(t.dispatcher.cache, t.dispatcher.maxSize, IsKey(sound));
            var h := History(t) + [sound];
            var a := |History(t)| - |k|;
            && 0 <= a < |h| && h[a] == key && Latest(t.taken[r], MSG_AUDIO) != Latest(t.early + h[..a], MSG_AUDIO)
  {
    hide Latest, IsKey;
    var h := History(s);
    FramesSnoc(s.dispatcher.history, Packet(key, true));
    FramesSnoc(s.dispatcher.history + [Packet(key, true)], Packet(config, false));
    assert (History(t) + [sound])[|h|] == key && (History(t) + [sound])[..|h|] == h;
    LatestIsMember(s.published, MSG_AUDIO);
  }

  /** A key frame and an audio config frame are published, and a player joins. */
  ghost predicate JoinedBehind(s: Source, t: Source, key: Frame, config: Frame, r: Reader) {
    var d := t.dispatcher;
    && Resting(t) && t.early == s.early && r in t.taken
    && Latest(t.taken[r], MSG_AUDIO) == Latest(t.published, MSG_AUDIO) == Some(config)
    && d.maxSize >= MIN_CACHE && d.cache == [Packet(key, true), Packet(config, false)]
    && d.history == s.dispatcher.history + [Packet(key, true)] + [Packet(config, false)]
    && r in d.pending && r !in d.active && r !in d.received
  }

  lemma JoinBehind(s: Source, key: Frame, config: Frame, r: Reader) returns (run: seq<Step>)
    requires SourceValid(s) && Resting(s) && r !in s.taken
    requires IsKey(key) && IsConfigFrame(key) == Some(false) && key.msgType == MSG_VIDEO
    requires IsConfigFrame(config) == Some(true) && config.msgType == MSG_AUDIO
    ensures LegalRun(s, run) && JoinedBehind(s, AfterRun(s, run), key, config, r)
  {
    hide Latest, LegalRun, AfterRun, IsConfigFrame, IsVideoKeyframe, Published, SourceValid;
    AfterTwo(s, key, config);
    EmptyRun(s);
    run := PublishAlone(s, [], key);
    run := PublishAlone(s, run, config);
    run := TakeAndJoin(s, run, r);
    LatestOfFrames(Published(Published(s, key), config).configs, true);
    LatestSnoc(s.published + [key], config, MSG_AUDIO);
  }

  lemma EmptyRun(s: Source)
    requires s.dispatcher.maxSize > 0
    ensures LegalRun(s, []) && AfterRun(s, []) == s
  {
  }

  lemma TakeAndJoin(o: Source, before: seq<Step>, r: Reader) returns (run: seq<Step>)
    requires o.dispatcher.maxSize > 0 && LegalRun(o, before)
    requires var s := AfterRun(o, before); s.registered && r !in s.taken && r !in s.joined
    ensures LegalRun(o, run) && AfterRun(o, run).dispatcher.maxSize > 0
    ensures var s, t := AfterRun(o, before), AfterRun(o, run);
            && t.dispatcher == Apply(s.dispatcher, Register(r))
            && t.taken == s.taken[r := ConfigFrames(s.configs, true)]
            && t.registered == s.registered && t.begun == s.begun && t.published == s.published && t.early == s.early
  {
    hide LegalRun, AfterRun, Latest, IsConfigFrame;
    var s := AfterRun(o, before);
    var s1 := Next(s, Take(r, true));
    run := ExtendRun(o, before, Take(r, true), s1);
    run := ExtendRun(o, run, Join(r), Next(s1, Join(r)));
  }

  lemma PublishedEffect(s: Source, f: Frame)
    requires Resting(s) && s.dispatcher.maxSize > 0
    ensures var t := Published(s, f);
            var p := Packet(f, IsKey(f));
            && Resting(t) && t.published == s.published + [f] && t.taken == s.taken && t.early == s.early && t.joined == s.joined
            && t.configs == (if IsConfigFrame(f) == Some(true) then s.configs[f.msgType := f] else s.configs)
            && t.dispatcher.cache == Retained(s.dispatcher.cache, s.dispatcher.maxSize, p.idr) + [p]
            && t.dispatcher.history == s.dispatcher.history + [p] && t.dispatcher.pending == {}
            && t.dispatcher.maxSize == s.dispatcher.maxSize
            && t.dispatcher.active == s.dispatcher.active + s.dispatcher.pending
            && t.dispatcher.received.Keys == s.dispatcher.received.Keys + s.dispatcher.active + s.dispatcher.pending
  {
    hide IsConfigFrame, IsVideoKeyframe, Retained;
  }

  lemma AfterTwo(s: Source, key: Frame, config: Frame)
    requires SourceValid(s) && Resting(s)
    requires IsKey(key) && IsConfigFrame(key) == Some(false)
    requires IsConfigFrame(config) == Some(true) && config.msgType == MSG_AUDIO
    ensures s.dispatcher.maxSize >= MIN_CACHE && s.joined <= s.taken.Keys
    ensures var t := Published(Published(s, key), config);
            var d := t.dispatcher;
            && Resting(t) && t.published == s.published + [key] + [config] && t.taken == s.taken && t.early == s.early
            && t.joined == s.joined && MSG_AUDIO in t.configs && t.configs[MSG_AUDIO] == config
            && (MSG_VIDEO in t.configs ==> IsConfig(t.configs[MSG_VIDEO], MSG_VIDEO))
            && d.cache == [Packet(key, true), Packet(config, false)] && d.maxSize == s.dispatcher.maxSize
            && d.history == s.dispatcher.history + [Packet(key, true)] + [Packet(config, false)]
            && d.pending == {} && d.active <= s.joined && d.received.Keys <= s.joined
  {
    assert ConfigsKept(s) && PlayersKnown(s) && CacheExact(s.dispatcher) && ReadersExact(s.dispatcher);
    ConfigTypes(s);
    MaxSizePositive(s.dispatcher);
    ActiveServed(s.dispatcher);
    hide SourceValid, IsConfigFrame, ConfigsKept, ReadersExact, Published;
    assert !IsKey(config);
    PublishedEffect(s, key);
    PublishedEffect(Published(s, key), config);
  }

  lemma ConfigTypes(s: Source)
    requires ConfigsKept(s)
    ensures MSG_VIDEO in s.configs ==> IsConfig(s.configs[MSG_VIDEO], MSG_VIDEO)
  {
  }

  lemma {:induction false} LatestIsMember(fs: seq<Frame>, kind: byte)
    ensures Latest(fs, kind).Some? ==> Latest(fs, kind).value in fs
    decreases |fs|
  {
    if fs != [] {
      LatestIsMember(fs[..|fs| - 1], kind);
    }
  }
}
