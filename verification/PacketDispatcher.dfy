/** Fan-out of packets to readers: `packet_dispatcher`, at the granularity of its locks. One
    thread distributes; readers come and go between its three critical sections. */
module PacketDispatchers {
  import opened RtmpPackets

  const MIN_CACHE := 32

  type Reader = nat

  /** A packet and the `is_idr` argument it is distributed with. */
  datatype Packet = Packet(frame: Frame, idr: bool)

  /** How far `distribute` has come. */
  datatype Phase = Idle | Delivered(packet: Packet) | Stored

  datatype State = State(
    maxSize: nat,
    cache: seq<Packet>,
    pending: set<Reader>,                      // new_clients_
    active: set<Reader>,                       // old_clients_
    registered: set<Reader>,
    received: map<Reader, seq<Packet>>,     // what each reader's callback was given
    phase: Phase,
    history: seq<Packet>)                   // the packets distributed so far

  datatype Event =
    | Deliver(packet: Packet)
    | Store
    | Merge
    | Register(reader: Reader)
    | Leave(reader: Reader)
    | DetachAll

  function ReceivedBy(m: map<Reader, seq<Packet>>, r: Reader): seq<Packet> {
    if r in m then m[r] else []
  }

  /** Each of the readers has been given the packets, in order. */
  function Served(m: map<Reader, seq<Packet>>, readers: set<Reader>, ps: seq<Packet>): map<Reader, seq<Packet>> {
    if ps == [] then m
    else map r | r in m.Keys + readers :: if r in readers then ReceivedBy(m, r) + ps else m[r]
  }

  /** Room is made for one more: everything goes before a key frame, otherwise the oldest. */
  function Retained(cache: seq<Packet>, maxSize: nat, idr: bool): seq<Packet>
    requires maxSize > 0
  {
    if idr then [] else if |cache| >= maxSize then cache[|cache| - (maxSize - 1)..] else cache
  }

  function Start(maxSize: nat): State {
    State(if maxSize < MIN_CACHE then MIN_CACHE else maxSize, [], {}, {}, {}, map[], Idle, [])
  }

  predicate Enabled(s: State, e: Event) {
    match e
    case Deliver(_) => s.phase.Idle?
    case Store => s.phase.Delivered?
    case Merge => s.phase.Stored?
    case _ => true
  }

  function Apply(s: State, e: Event): State
    requires s.maxSize > 0 && Enabled(s, e)
  {
    match e
    case Deliver(p) => s.(received := Served(s.received, s.active, [p]), history := s.history + [p], phase := Delivered(p))
    case Store => s.(cache := Retained(s.cache, s.maxSize, s.phase.packet.idr) + [s.phase.packet], phase := Stored)
    case Merge => s.(received := Served(s.received, s.pending, s.cache), active := s.active + s.pending, pending := {}, phase := Idle)
    case Register(r) => s.(pending := s.pending + {r}, registered := s.registered + {r})
    case Leave(r) => if r in s.registered then s.(pending := s.pending - {r}) else s
    case DetachAll => s.(pending := {}, active := {}, registered := s.registered - s.pending - s.active)
  }

  // ---------------------------------------------------------------- what every step keeps

  /** How many packets there are from the last key frame on. */
  function SinceKey(h: seq<Packet>): (n: nat)
    ensures n <= |h|
  {
    if h == [] then 0 else if h[|h| - 1].idr then 1 else SinceKey(h[..|h| - 1]) + 1
  }

  function Newest(h: seq<Packet>, max: nat): seq<Packet> {
    h[|h| - (if SinceKey(h) < max then SinceKey(h) else max)..]
  }

  /** The packets that have gone through the second critical section. */
  function Cached(s: State): seq<Packet> {
    if s.phase.Delivered? && s.history != [] then s.history[..|s.history| - 1] else s.history
  }

  ghost predicate Block(got: seq<Packet>, h: seq<Packet>, a: nat, b: nat) {
    a <= b <= |h| && got == h[a..b]
  }

  /** Everything from some packet on. */
  ghost predicate UpToDate(got: seq<Packet>, h: seq<Packet>) {
    exists a: nat :: Block(got, h, a, |h|)
  }

  ghost predicate Contiguous(got: seq<Packet>, h: seq<Packet>) {
    exists a: nat, b: nat :: Block(got, h, a, b)
  }

  ghost predicate CacheExact(s: State) {
    && s.maxSize >= MIN_CACHE
    && s.cache == Newest(Cached(s), s.maxSize)
    && (s.phase.Delivered? ==> s.history != [] && s.history[|s.history| - 1] == s.phase.packet)
    && (s.phase.Stored? ==> s.history != [])
  }

  ghost predicate ReadersExact(s: State) {
    && s.pending !! s.active
    && s.pending + s.active <= s.registered
    && s.active <= s.received.Keys
    && s.pending !! s.received.Keys
    && (forall r | r in s.active :: UpToDate(s.received[r], s.history))
    && (forall r | r in s.received :: Contiguous(s.received[r], s.history))
  }

  /** A reader that has been served does not register again. */
  predicate Once(s: State, e: Event) {
    e.Register? ==> e.reader !in s.received
  }

  lemma StartExact(maxSize: nat)
    ensures CacheExact(Start(maxSize)) && ReadersExact(Start(maxSize))
  {
    hide UpToDate, Contiguous;
    var s := Start(maxSize);
    assert s.history == [] && Cached(s) == [];
    assert Newest([], s.maxSize) == [];
  }

  lemma {:induction false} SinceKeyPrefix(h: seq<Packet>, p: Packet)
    ensures SinceKey(h + [p]) == if p.idr then 1 else SinceKey(h) + 1
  {
    assert (h + [p])[..|h + [p]| - 1] == h;
  }

  lemma StoreKeepsNewest(cache: seq<Packet>, h: seq<Packet>, p: Packet, max: nat)
    requires max >= 1 && cache == Newest(h, max)
    ensures Retained(cache, max, p.idr) + [p] == Newest(h + [p], max)
  {
    SinceKeyPrefix(h, p);
  }

  lemma StepCache(s: State, e: Event)
    requires CacheExact(s) && Enabled(s, e)
    ensures CacheExact(Apply(s, e))
  {
    hide Newest, Retained, Served;
    match e
    case Deliver(p) =>
      assert (s.history + [p])[..|s.history|] == s.history;
    case Store =>
      var h := s.history[..|s.history| - 1];
      assert s.history == h + [s.phase.packet];
      StoreKeepsNewest(s.cache, h, s.phase.packet, s.maxSize);
    case _ =>
  }

  lemma BlockGrows(got: seq<Packet>, h: seq<Packet>, p: Packet)
    ensures UpToDate(got, h) ==> UpToDate(got + [p], h + [p])
    ensures Contiguous(got, h) ==> Contiguous(got, h + [p])
  {
    if UpToDate(got, h) {
      var a: nat :| Block(got, h, a, |h|);
      assert Block(got + [p], h + [p], a, |h + [p]|);
    }
    if Contiguous(got, h) {
      var a: nat, b: nat :| Block(got, h, a, b);
      assert Block(got, h + [p], a, b);
    }
  }

  lemma UpToDateIsContiguous(got: seq<Packet>, h: seq<Packet>)
    requires UpToDate(got, h)
    ensures Contiguous(got, h)
  {
    var a: nat :| Block(got, h, a, |h|);
  }

  lemma NewestUpToDate(h: seq<Packet>, max: nat)
    ensures UpToDate(Newest(h, max), h)
  {
    var n := if SinceKey(h) < max then SinceKey(h) else max;
    assert Block(Newest(h, max), h, |h| - n, |h|);
  }

  lemma DeliverReaders(s: State, p: Packet)
    requires ReadersExact(s) && s.phase.Idle? && s.maxSize > 0
    ensures ReadersExact(Apply(s, Deliver(p)))
  {
    hide UpToDate, Contiguous;
    var t := Apply(s, Deliver(p));
    forall r | r in t.received
      ensures r in t.active ==> UpToDate(t.received[r], t.history)
      ensures Contiguous(t.received[r], t.history)
    {
      BlockGrows(s.received[r], s.history, p);
      if r in s.active {
        UpToDateIsContiguous(t.received[r], t.history);
      }
    }
  }

  lemma MergeReaders(s: State)
    requires ReadersExact(s) && CacheExact(s) && s.phase.Stored?
    ensures ReadersExact(Apply(s, Merge))
    ensures forall r | r in s.pending :: ReceivedBy(Apply(s, Merge).received, r) == Newest(s.history, s.maxSize)
  {
    hide UpToDate, Contiguous, SinceKey;
    var t := Apply(s, Merge);
    NewestUpToDate(s.history, s.maxSize);
    SinceKeyPositive(s.history);
    UpToDateIsContiguous(s.cache, s.history);
    forall r | r in t.received
      ensures r in s.pending ==> t.received[r] == s.cache
      ensures r !in s.pending ==> r in s.received && t.received[r] == s.received[r]
    {
    }
  }

  lemma SinceKeyPositive(h: seq<Packet>)
    requires h != []
    ensures SinceKey(h) >= 1
  {
  }

  lemma StepReaders(s: State, e: Event)
    requires CacheExact(s) && ReadersExact(s) && Enabled(s, e) && Once(s, e)
    ensures ReadersExact(Apply(s, e))
  {
    hide UpToDate, Contiguous, Served;
    match e
    case Deliver(p) => DeliverReaders(s, p);
    case Merge => MergeReaders(s);
    case _ =>
  }

  /** One step: the cache stays what it should be, and so do the readers unless one that has
      been served registers. */
  lemma StepExact(s: State, e: Event)
    requires CacheExact(s) && Enabled(s, e)
    ensures s.maxSize > 0 && CacheExact(Apply(s, e))
    ensures ReadersExact(s) && Once(s, e) ==> ReadersExact(Apply(s, e))
  {
    hide CacheExact, ReadersExact, Apply;
    MaxSizePositive(s);
    StepCache(s, e);
    if ReadersExact(s) && Once(s, e) {
      StepReaders(s, e);
    }
  }

  // ---------------------------------------------------------------- runs

  predicate Legal(s: State, run: seq<Event>)
    requires s.maxSize > 0
    decreases |run|, 0
  {
    run == [] || (Legal(s, run[..|run| - 1]) && Enabled(After(s, run[..|run| - 1]), run[|run| - 1]))
  }

  function After(s: State, run: seq<Event>): (t: State)
    requires s.maxSize > 0 && Legal(s, run)
    ensures t.maxSize == s.maxSize
    decreases |run|, 1
  {
    if run == [] then s else Apply(After(s, run[..|run| - 1]), run[|run| - 1])
  }

  /** No step of the run registers a reader that has been served. */
  predicate RegistersOnce(s: State, run: seq<Event>)
    requires s.maxSize > 0 && Legal(s, run)
    decreases |run|
  {
    run == [] || (RegistersOnce(s, run[..|run| - 1]) && Once(After(s, run[..|run| - 1]), run[|run| - 1]))
  }

  /** In every run, whoever registers and how often, the cache is what it should be, its limit
      being the size asked for, but at least 32. */
  lemma {:induction false} AlwaysCacheExact(maxSize: nat, run: seq<Event>)
    requires Legal(Start(maxSize), run)
    ensures var s := After(Start(maxSize), run);
            CacheExact(s) && s.maxSize == if maxSize < 32 then 32 else maxSize
    decreases |run|
  {
    hide CacheExact, Apply, Enabled;
    StartExact(maxSize);
    if run != [] {
      AlwaysCacheExact(maxSize, run[..|run| - 1]);
      StepExact(After(Start(maxSize), run[..|run| - 1]), run[|run| - 1]);
    }
  }

  /** Main result: in every run the cache is what it should be, and what each reader has got
      is a block of the history without gap or repetition, up to date if the reader is active. */
  lemma {:induction false} AlwaysGapFree(maxSize: nat, run: seq<Event>)
    requires Legal(Start(maxSize), run) && RegistersOnce(Start(maxSize), run)
    ensures CacheExact(After(Start(maxSize), run)) && ReadersExact(After(Start(maxSize), run))
    decreases |run|
  {
    StartExact(maxSize);
    if run != [] {
      hide CacheExact, ReadersExact, Apply, Enabled;
      var init := run[..|run| - 1];
      AlwaysGapFree(maxSize, init);
      StepCache(After(Start(maxSize), init), run[|run| - 1]);
      StepReaders(After(Start(maxSize), init), run[|run| - 1]);
    }
  }

  /** Main result: whatever happened before, whoever registered how often and at what moment,
      at the end of a distribution a reader that was served one block of the history still has
      that block if it is not pending; otherwise the cache follows, and the two are one block if
      and only if the cache starts where the block ended. If it starts behind, packets are
      missing; if it starts before, they have come twice. */
  lemma MergedIff(s: State, r: Reader, a: nat, b: nat)
    requires CacheExact(s) && s.phase.Stored? && Block(ReceivedBy(s.received, r), s.history, a, b)
    ensures var h := s.history;
            var start := |h| - |s.cache|;
            var after := ReceivedBy(Apply(s, Merge).received, r);
            && 0 <= start < |h| && s.cache == h[start..]
            && after == h[a..b] + (if r in s.pending then h[start..] else [])
            && (r in s.pending ==> (after == h[a..] <==> start == b))
  {
    hide Newest, Served, SinceKey;
    var h := s.history;
    ServedAt(s.received, s.pending, s.cache, r);
    NewestIsTail(h, s.maxSize);
    NewestNotEmpty(h, s.maxSize);
    TwoBlocks(h, a, b, |h| - |s.cache|);
  }

  lemma TwoBlocks(h: seq<Packet>, a: nat, b: nat, start: nat)
    requires a <= b <= |h| && start <= |h|
    ensures h[a..b] + [] == h[a..b]
    ensures h[a..b] + h[start..] == h[a..] <==> start == b
  {
    assert start == b ==> h[a..b] + h[start..] == h[a..];
    assert |h[a..b] + h[start..]| == (b - a) + (|h| - start) && |h[a..]| == |h| - a;
  }

  lemma NewestNotEmpty(h: seq<Packet>, max: nat)
    requires h != [] && max > 0
    ensures |Newest(h, max)| > 0
  {
    hide SinceKey;
    SinceKeyPositive(h);
  }

  /** The distribution under way is completed; between two, one of `p` is done. */
  function Completed(s: State, p: Packet): State
    requires s.maxSize > 0
  {
    match s.phase
    case Idle => Distributed(s, p)
    case Delivered(_) => Apply(Apply(s, Store), Merge)
    case Stored => Apply(s, Merge)
  }

  /** A reader that registers, at any moment, gets the whole cache at the end of the
      distribution, behind what it has by then: between two, that includes the packet itself if
      and only if the reader is active, so that it gets the packet twice. */
  lemma RegisteredTwiceIff(s: State, r: Reader, p: Packet)
    requires CacheExact(s)
    ensures s.maxSize > 0
    ensures var t := Completed(Apply(s, Register(r)), p);
            var cache := Newest(t.history, s.maxSize);
            var before, after := ReceivedBy(s.received, r), ReceivedBy(t.received, r);
            && t.history == (if s.phase.Idle? then s.history + [p] else s.history)
            && after == before + (if s.phase.Idle? && r in s.active then [p] else []) + cache
            && cache != [] && cache[|cache| - 1] == t.history[|t.history| - 1]
            && (after == before + cache <==> !(s.phase.Idle? && r in s.active))
  {
    hide Newest, Retained, SinceKey, Served, CacheExact, Completed;
    MaxSizePositive(s);
    var s1 := Apply(s, Register(r));
    StepCache(s, Register(r));
    var s3 := ToMerge(s1, p);
    ServedAt(s1.received, s1.active, [p], r);
    ServedAt(s3.received, s3.pending, s3.cache, r);
    NewestNotEmpty(s3.history, s3.maxSize);
    NewestIsTail(s3.history, s3.maxSize);
    SameByLength(ReceivedBy(s.received, r), p, s3.cache);
  }

  lemma SameByLength(before: seq<Packet>, p: Packet, cache: seq<Packet>)
    ensures before + [] + cache == before + cache && before + [p] + cache != before + cache
  {
    assert |before + [p] + cache| == |before + cache| + 1;
  }

  /** Up to the third critical section. */
  lemma ToMerge(s: State, p: Packet) returns (t: State)
    requires CacheExact(s) && s.maxSize > 0
    ensures t.phase.Stored? && CacheExact(t) && t.cache == Newest(t.history, t.maxSize) && Completed(s, p) == Apply(t, Merge)
    ensures t.maxSize == s.maxSize && t.pending == s.pending && t.active == s.active
    ensures t.history == (if s.phase.Idle? then s.history + [p] else s.history) && t.history != []
    ensures t.received == if s.phase.Idle? then Served(s.received, s.active, [p]) else s.received
  {
    hide Newest, Retained, SinceKey, Served;
    t := s;
    if t.phase.Idle? {
      StepCache(t, Deliver(p));
      t := Apply(t, Deliver(p));
    }
    if t.phase.Delivered? {
      StepCache(t, Store);
      t := Apply(t, Store);
    }
  }

  /** A reader that was served one block of the history, up to the present if it is active, and
      registers again at any moment: the end of the distribution makes it one block again if
      and only if the cache starts where the block has come to by then. */
  lemma RejoinedIff(s: State, r: Reader, p: Packet, a: nat, b: nat)
    requires CacheExact(s) && Block(ReceivedBy(s.received, r), s.history, a, b) && (r in s.active ==> b == |s.history|)
    ensures s.maxSize > 0
    ensures var t := Completed(Apply(s, Register(r)), p);
            var h := t.history;
            var start := |h| - |Newest(h, s.maxSize)|;
            var end := if r in s.active then |h| else b;
            && 0 <= start < |h| && end <= |h|
            && ReceivedBy(t.received, r) == h[a..end] + h[start..]
            && (ReceivedBy(t.received, r) == h[a..] <==> start == end)
            && (r in s.active ==> start != end)
  {
    hide Newest, Served, Completed, ReceivedBy, CacheExact;
    var s3 := GotByThen(s, r, p, a, b);
    MergedIff(s3, r, a, if r in s.active then |s3.history| else b);
  }

  lemma GotByThen(s: State, r: Reader, p: Packet, a: nat, b: nat) returns (t: State)
    requires CacheExact(s) && Block(ReceivedBy(s.received, r), s.history, a, b) && (r in s.active ==> b == |s.history|)
    ensures s.maxSize > 0 && t.maxSize == s.maxSize && t.phase.Stored? && CacheExact(t) && r in t.pending
    ensures t.cache == Newest(t.history, t.maxSize) && Completed(Apply(s, Register(r)), p) == Apply(t, Merge)
    ensures Block(ReceivedBy(t.received, r), t.history, a, if r in s.active then |t.history| else b)
  {
    hide Newest, Retained, SinceKey, Served, CacheExact, Completed;
    MaxSizePositive(s);
    var s1 := Apply(s, Register(r));
    StepCache(s, Register(r));
    t := ToMerge(s1, p);
    ServedAt(s1.received, s1.active, [p], r);
    GrownBlock(s.history, p, a, b);
  }

  lemma GrownBlock(h: seq<Packet>, p: Packet, a: nat, b: nat)
    requires a <= b <= |h|
    ensures h[a..b] + [] == h[a..b] == (h + [p])[a..b]
    ensures b == |h| ==> h[a..b] + [p] == (h + [p])[a..|h| + 1]
  {
  }

  lemma NewestIsTail(h: seq<Packet>, max: nat)
    ensures var k := Newest(h, max); |k| <= |h| && k == h[|h| - |k|..]
  {
    hide SinceKey;
  }

  /** One whole `distribute` call with nobody in between. */
  function Distributed(s: State, p: Packet): State
    requires s.maxSize > 0 && s.phase.Idle?
  {
    Apply(Apply(Apply(s, Deliver(p)), Store), Merge)
  }

  // ---------------------------------------------------------------- nobody is forgotten

  /** Who is pending, who is active and who is registered after a step: a reader's own events,
      merging and detaching change it, and nothing else does. */
  lemma StepReadership(s: State, e: Event, q: Reader)
    requires s.maxSize > 0 && Enabled(s, e) && s.pending + s.active <= s.registered
    ensures var t := Apply(s, e);
            && (q in t.pending <==> e == Register(q) || (q in s.pending && e != Leave(q) && e != Merge && e != DetachAll))
            && (q in t.active <==> (q in s.active || (e == Merge && q in s.pending)) && e != DetachAll)
            && (q in t.registered <==>
                  e == Register(q) || (q in s.registered && !(e == DetachAll && (q in s.pending || q in s.active))))
            && (e != Merge && !e.Deliver? ==> t.received == s.received && t.history == s.history)
            && t.pending + t.active <= t.registered
  {
  }

  /** A reader that registered when `n` packets had been distributed and it had got `before` is
      waiting for the end of a distribution, or has got everything from a packet on that is among
      the first of those after them, the newest one included. */
  ghost predicate Due(s: State, q: Reader, n: nat, before: seq<Packet>) {
    && s.pending + s.active <= s.registered && n <= |s.history|
    && (q in s.pending || q in s.active)
    && (q in s.pending ==> q !in s.active && ReceivedBy(s.received, q) == before
                           && |s.history| <= if s.phase.Idle? then n else n + 1)
    && (q in s.active ==> q !in s.pending && ServedSince(ReceivedBy(s.received, q), before, s.history, n))
  }

  ghost predicate ServedSince(got: seq<Packet>, before: seq<Packet>, h: seq<Packet>, n: nat) {
    exists a: nat :: a < |h| && ServedFrom(got, before, h, a) && a <= n
  }

  predicate ServedFrom(got: seq<Packet>, before: seq<Packet>, h: seq<Packet>, a: nat) {
    a <= |h| && got == before + h[a..]
  }

  lemma ServedSinceMore(got: seq<Packet>, before: seq<Packet>, h: seq<Packet>, p: Packet, n: nat)
    requires ServedSince(got, before, h, n)
    ensures ServedSince(got + [p], before, h + [p], n)
  {
    var a: nat :| a < |h| && ServedFrom(got, before, h, a) && a <= n;
    assert before + h[a..] + [p] == before + (h + [p])[a..];
    assert ServedFrom(got + [p], before, h + [p], a);
  }

  lemma StepDue(s: State, e: Event, q: Reader, n: nat, before: seq<Packet>)
    requires CacheExact(s) && Enabled(s, e) && Due(s, q, n, before)
    requires e != Leave(q) && e != DetachAll && e != Register(q)
    ensures s.maxSize > 0 && Due(Apply(s, e), q, n, before)
    ensures e == Merge ==> q in Apply(s, e).active
  {
    hide CacheExact, ServedSince, Served, Retained;
    MaxSizePositive(s);
    match e
    case Deliver(p) =>
      ServedAt(s.received, s.active, [p], q);
      if q in s.active {
        ServedSinceMore(ReceivedBy(s.received, q), before, s.history, p, n);
      }
    case Merge => MergeDue(s, q, n, before);
    case _ =>
  }

  lemma MergeDue(s: State, q: Reader, n: nat, before: seq<Packet>)
    requires CacheExact(s) && s.phase.Stored? && Due(s, q, n, before)
    ensures s.maxSize > 0 && Due(Apply(s, Merge), q, n, before) && q in Apply(s, Merge).active
  {
    hide Newest, Served, SinceKey;
    MaxSizePositive(s);
    ServedAt(s.received, s.pending, s.cache, q);
    if q in s.pending {
      NewestIsTail(s.history, s.maxSize);
      NewestNotEmpty(s.history, s.maxSize);
      assert ServedFrom(before + s.cache, before, s.history, |s.history| - |s.cache|);
    } else {
      assert ReceivedBy(s.received, q) + [] == ReceivedBy(s.received, q);
    }
  }

  /** The reader stays: it neither leaves nor registers again, and nobody detaches everybody. */
  predicate Stays(run: seq<Event>, q: Reader) {
    Leave(q) !in run && Register(q) !in run && DetachAll !in run
  }

  lemma {:induction false} RunDue(s: State, run: seq<Event>, q: Reader, n: nat, got: seq<Packet>)
    requires CacheExact(s) && s.maxSize > 0 && Legal(s, run) && Due(s, q, n, got) && Stays(run, q)
    ensures CacheExact(After(s, run)) && Due(After(s, run), q, n, got)
    ensures Merge in run ==> q in After(s, run).active
    decreases |run|
  {
    hide CacheExact, Due, Apply, Enabled;
    if run != [] {
      var before, e := run[..|run| - 1], run[|run| - 1];
      assert run == before + [e];
      assert forall x | x in before :: x in run;
      assert e in run;
      RunDue(s, before, q, n, got);
      StepExact(After(s, before), e);
      StepDue(After(s, before), e, q, n, got);
      if q in After(s, before).active {
        StaysActive(After(s, before), e, q, n, got);
      }
    }
  }

  lemma StaysActive(s: State, e: Event, q: Reader, n: nat, before: seq<Packet>)
    requires s.maxSize > 0 && Enabled(s, e) && Due(s, q, n, before) && e != DetachAll && q in s.active
    ensures q in Apply(s, e).active
  {
    StepReadership(s, e, q);
  }

  /** In every run the readers served are among those registered. */
  lemma {:induction false} AlwaysRegistered(maxSize: nat, run: seq<Event>)
    requires Legal(Start(maxSize), run)
    ensures var s := After(Start(maxSize), run); s.pending + s.active <= s.registered
    decreases |run|
  {
    hide Apply, Enabled;
    if run != [] {
      AlwaysRegistered(maxSize, run[..|run| - 1]);
      StepReadership(After(Start(maxSize), run[..|run| - 1]), run[|run| - 1], 0);
    }
  }

  /** Main result: in every run, a reader that registers at any moment at which it is not active
      and then stays is pending until the next distribution is over, and from then on, without
      end, it has got every packet distributed since it registered. */
  lemma RegisteredIsServed(maxSize: nat, before: seq<Event>, q: Reader, after: seq<Event>)
    requires Legal(Start(maxSize), before)
    requires var s := After(Start(maxSize), before);
             q !in s.active && Legal(Apply(s, Register(q)), after) && Stays(after, q)
    ensures var s := After(Start(maxSize), before);
            var t := After(Apply(s, Register(q)), after);
            && (q in t.pending || q in t.active)
            && (Merge in after ==> q in t.active)
            && (q in t.active ==>
                  ServedSince(ReceivedBy(t.received, q), ReceivedBy(s.received, q), t.history, |s.history|))
  {
    hide CacheExact, ServedSince, Legal, After, ReceivedBy;
    AlwaysCacheExact(maxSize, before);
    AlwaysRegistered(maxSize, before);
    var s := After(Start(maxSize), before);
    StepExact(s, Register(q));
    RunDue(Apply(s, Register(q)), after, q, |s.history|, ReceivedBy(s.received, q));
  }

  predicate Quiet(run: seq<Event>, r: Reader) {
    Register(r) !in run
  }

  lemma {:induction false} NothingMore(s: State, run: seq<Event>, r: Reader)
    requires s.maxSize > 0 && Legal(s, run) && Quiet(run, r) && r !in s.active && r !in s.pending
    ensures var t := After(s, run);
            r !in t.active && r !in t.pending && ReceivedBy(t.received, r) == ReceivedBy(s.received, r)
    decreases |run|
  {
    if run != [] {
      var init, e := run[..|run| - 1], run[|run| - 1];
      assert forall x | x in init :: x in run;
      NothingMore(s, init, r);
      assert e in run;
    }
  }

  ghost predicate HearsNothing(s: State, r: Reader)
    requires s.maxSize > 0
  {
    forall run | Legal(s, run) && Quiet(run, r) :: ReceivedBy(After(s, run).received, r) == ReceivedBy(s.received, r)
  }

  /** Main result: leaving silences a registered reader exactly when it is not yet active. */
  lemma LeaveSilencesIff(s: State, r: Reader, p: Packet)
    requires CacheExact(s) && ReadersExact(s)
    ensures HearsNothing(Apply(s, Leave(r)), r) <==> r !in s.active
  {
    var t := Apply(s, Leave(r));
    if r in s.active {
      var run := NextDelivery(t, r, p);
      assert Legal(t, run) && Quiet(run, r);
    } else {
      forall run | Legal(t, run) && Quiet(run, r)
        ensures ReceivedBy(After(t, run).received, r) == ReceivedBy(t.received, r)
      {
        NothingMore(t, run, r);
      }
    }
  }

  /** Detaching silences everybody, in the middle of a distribution too. */
  lemma DetachSilences(s: State, r: Reader)
    requires s.maxSize > 0
    ensures HearsNothing(Apply(s, DetachAll), r)
  {
    var t := Apply(s, DetachAll);
    forall run | Legal(t, run) && Quiet(run, r)
      ensures ReceivedBy(After(t, run).received, r) == ReceivedBy(t.received, r)
    {
      NothingMore(t, run, r);
    }
  }

  /** An active reader hears the next packet distributed. */
  lemma NextDelivery(s: State, r: Reader, p: Packet) returns (run: seq<Event>)
    requires CacheExact(s) && ReadersExact(s) && r in s.active
    ensures Legal(s, run) && Quiet(run, r) && |ReceivedBy(After(s, run).received, r)| > |ReceivedBy(s.received, r)|
  {
    MaxSizePositive(s);
    var s1 := s;
    run := [];
    assert Legal(s, run) && After(s, run) == s;
    hide Legal, After, CacheExact, ReadersExact;
    if s1.phase.Delivered? {
      run, s1 := Extend(s, run, Store);
    }
    if s1.phase.Stored? {
      run, s1 := Extend(s, run, Merge);
    }
    run, s1 := Extend(s, run, Deliver(p));
  }

  lemma Extend(s: State, run: seq<Event>, e: Event) returns (more: seq<Event>, t: State)
    requires s.maxSize > 0 && Legal(s, run) && Enabled(After(s, run), e)
    ensures more == run + [e] && Legal(s, more) && After(s, more) == t == Apply(After(s, run), e)
  {
    more := run + [e];
    assert more[..|more| - 1] == run;
    t := Apply(After(s, run), e);
  }

  // ---------------------------------------------------------------- the dispatcher itself

  /** The dispatcher and its readers. The three parts of `distribute` are methods of their
      own, since others may take the locks in between. */
  class PacketDispatcher {
    const maxSize: nat
    var cache: seq<Packet>
    var pending: set<Reader>
    var active: set<Reader>
    var registered: set<Reader>
    var received: map<Reader, seq<Packet>>
    var phase: Phase
    ghost var history: seq<Packet>

    ghost function View(): State
      reads this
    {
      State(maxSize, cache, pending, active, registered, received, phase, history)
    }

    ghost predicate Valid()
      reads this
    {
      CacheExact(View())
    }

    /** What registering a reader again would break. */
    ghost predicate Exact()
      reads this
    {
      ReadersExact(View())
    }

    constructor (size: nat)
      ensures View() == Start(size) && Valid() && Exact()
    {
      maxSize := if size < MIN_CACHE then MIN_CACHE else size;
      cache, history := [], [];
      pending, active, registered := {}, {}, {};
      received := map[];
      phase := Idle;
      new;
      StartExact(size);
    }

    method RegistReader(r: Reader)
      requires Valid()
      modifies this
      ensures View() == Apply(old(View()), Register(r)) && Valid()
      ensures old(Exact()) && r !in old(received) ==> Exact()
    {
      hide CacheExact, ReadersExact;
      StepExact(View(), Register(r));
      registered := registered + {r};
      pending := pending + {r};
    }

    /** `client_reader::leave` and `deregist_reader`. */
    method LeaveReader(r: Reader)
      requires Valid()
      modifies this
      ensures View() == Apply(old(View()), Leave(r)) && Valid()
      ensures old(Exact()) ==> Exact()
    {
      hide CacheExact, ReadersExact;
      StepExact(View(), Leave(r));
      if r in registered {
        pending := pending - {r};
      }
    }

    /** First critical section of `distribute`. */
    method DispatchToActive(p: Packet)
      requires Valid() && phase.Idle?
      modifies this
      ensures View() == Apply(old(View()), Deliver(p)) && Valid()
      ensures old(Exact()) ==> Exact()
    {
      hide CacheExact, ReadersExact, Served;
      StepExact(View(), Deliver(p));
      ServeAll(active, p);
      phase := Delivered(p);
      history := history + [p];
    }

    /** One packet to every reader of a set. */
    method ServeAll(readers: set<Reader>, p: Packet)
      modifies this`received
      ensures received == Served(old(received), readers, [p])
    {
      var todo := readers;
      assert received == Served(received, {}, [p]);
      while todo != {}
        invariant todo <= readers
        invariant received == Served(old(received), readers - todo, [p])
      {
        var r :| r in todo;
        received := received[r := ReceivedBy(received, r) + [p]];
        assert readers - (todo - {r}) == (readers - todo) + {r};
        todo := todo - {r};
      }
      assert readers - todo == readers;
    }

    /** Second critical section. */
    method StorePacket()
      requires Valid() && phase.Delivered?
      modifies this
      ensures View() == Apply(old(View()), Store) && Valid()
      ensures old(Exact()) ==> Exact()
    {
      hide CacheExact, ReadersExact, Retained;
      StepExact(View(), Store);
      var p := phase.packet;
      MakeRoom(p.idr);
      cache := cache + [p];
      phase := Stored;
    }

    method MakeRoom(idr: bool)
      requires maxSize > 0
      modifies this`cache
      ensures cache == Retained(old(cache), maxSize, idr)
    {
      if idr {
        cache := [];
        return;
      }
      ghost var dropped: nat := 0;
      while |cache| >= maxSize
        invariant dropped <= |old(cache)| && cache == old(cache)[dropped..]
        invariant dropped == 0 || |cache| + 1 >= maxSize
      {
        dropped := dropped + 1;
        cache := cache[1..];
      }
    }

    /** Third critical section. */
    method MergeReaders()
      requires Valid() && phase.Stored?
      modifies this
      ensures View() == Apply(old(View()), Merge) && Valid()
      ensures old(Exact()) ==> Exact()
    {
      hide CacheExact, ReadersExact, Served;
      StepExact(View(), Merge);
      if pending == {} {
        ServedNobody(received, cache);
        phase := Idle;
        assert active + pending == active;
        return;
      }
      ServeCache();
      active := active + pending;
      pending := {};
      phase := Idle;
    }

    /** The cached packets to every pending reader. */
    method ServeCache()
      modifies this`received
      ensures received == Served(old(received), pending, cache)
    {
      var i := 0;
      while i < |cache|
        invariant 0 <= i <= |cache|
        invariant received == Served(old(received), pending, cache[..i])
      {
        ServeAll(pending, cache[i]);
        ServedOnward(old(received), pending, cache, i);
        i := i + 1;
      }
      assert cache[..i] == cache;
    }

    method DetachAllReaders()
      requires Valid()
      modifies this
      ensures View() == Apply(old(View()), DetachAll) && Valid()
      ensures old(Exact()) ==> Exact()
    {
      hide CacheExact, ReadersExact;
      StepExact(View(), DetachAll);
      if pending == {} && active == {} {
        assert registered - pending - active == registered;
        return;
      }
      registered := registered - pending - active;
      pending, active := {}, {};
    }
  }

  lemma MaxSizePositive(s: State)
    requires CacheExact(s)
    ensures s.maxSize > 0
  {
  }

  lemma ServedNobody(m: map<Reader, seq<Packet>>, ps: seq<Packet>)
    ensures Served(m, {}, ps) == m
  {
  }

  lemma ServedOnward(m: map<Reader, seq<Packet>>, readers: set<Reader>, ps: seq<Packet>, i: nat)
    requires i < |ps|
    ensures Served(Served(m, readers, ps[..i]), readers, [ps[i]]) == Served(m, readers, ps[..i + 1])
  {
    assert ps[..i + 1] == ps[..i] + [ps[i]];
    ServedMore(m, readers, ps[..i], ps[i]);
  }

  lemma ServedAt(m: map<Reader, seq<Packet>>, readers: set<Reader>, ps: seq<Packet>, r: Reader)
    ensures ReceivedBy(Served(m, readers, ps), r) == ReceivedBy(m, r) + if r in readers then ps else []
    ensures r in Served(m, readers, ps) <==> r in m || (ps != [] && r in readers)
  {
    assert ReceivedBy(m, r) + [] == ReceivedBy(m, r);
  }

  lemma ServedMore(m: map<Reader, seq<Packet>>, readers: set<Reader>, ps: seq<Packet>, p: Packet)
    ensures Served(Served(m, readers, ps), readers, [p]) == Served(m, readers, ps + [p])
  {
    hide Served;
    var a, b := Served(m, readers, ps), Served(m, readers, ps + [p]);
    var c := Served(a, readers, [p]);
    forall r
      ensures r in c <==> r in b
      ensures ReceivedBy(c, r) == ReceivedBy(b, r)
    {
      ServedAt(m, readers, ps, r);
      ServedAt(m, readers, ps + [p], r);
      ServedAt(a, readers, [p], r);
      AssocLast(ReceivedBy(m, r), ps, p);
    }
    assert c.Keys == b.Keys;
    assert forall r | r in c :: c[r] == ReceivedBy(c, r) && b[r] == ReceivedBy(b, r);
  }

  lemma AssocLast(a: seq<Packet>, b: seq<Packet>, p: Packet)
    ensures a + b + [p] == a + (b + [p])
  {
  }
}
