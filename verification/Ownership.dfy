/** Who may publish: the ownership token of `media_source::get_ownership`, and how
    `on_amf_publish` takes, drops and swaps it. Any number of sessions run at once; a step is
    one access to an `owned_` flag or to fields only its session touches. */
module Ownerships {
  import opened Bytes
  import Registry = SourceRegistries

  type Sid = nat
  type Src = Registry.Id

  /** Where a session is in `on_amf_publish`. */
  datatype Pc =
    | Idle
    | Looked(found: Option<Src>)   // after find
    | Dropped(target: Src)         // its old token is released
    | Acquired(target: Src)        // get_ownership has returned
    | Assigned(target: Src)        // src_ownership_ is set, rtmp_source_ not yet

  /** `temp` is the result of `get_ownership` before it is assigned. */
  datatype Session = Session(source: Option<Src>, token: Option<Src>, temp: Option<Src>, pc: Pc)

  datatype State = State(sessions: map<Sid, Session>, owned: set<Src>, made: set<Src>)

  datatype Step =
    | Connect(sid: Sid)
    | Look(sid: Sid, found: Option<Src>)
    | Create(sid: Sid, source: Src)
    | Drop(sid: Sid)
    | Acquire(sid: Sid)
    | Assign(sid: Sid)
    | Commit(sid: Sid)
    | Close(sid: Sid)

  function Start(): State {
    State(map[], {}, {})
  }

  function Released(owned: set<Src>, token: Option<Src>): set<Src> {
    if token.Some? then owned - {token.value} else owned
  }

  predicate Enabled(s: State, e: Step) {
    match e
    case Connect(i) => i !in s.sessions
    case Look(i, found) => i in s.sessions && s.sessions[i].pc.Idle? && (found.Some? ==> found.value in s.made)
    case Create(i, x) => i in s.sessions && s.sessions[i].pc == Looked(None) && x !in s.made
    case Drop(i) => i in s.sessions && s.sessions[i].pc.Looked? && s.sessions[i].pc.found.Some?
    case Acquire(i) => i in s.sessions && s.sessions[i].pc.Dropped?
    case Assign(i) => i in s.sessions && s.sessions[i].pc.Acquired?
    case Commit(i) => i in s.sessions && s.sessions[i].pc.Assigned?
    case Close(i) => i in s.sessions && s.sessions[i].pc.Idle?
  }

  function Apply(s: State, e: Step): State
    requires Enabled(s, e)
  {
    if e.Connect? then s.(sessions := s.sessions[e.sid := Session(None, None, None, Idle)])
    else
      var c := s.sessions[e.sid];
      match e
      case Look(i, found) => s.(sessions := s.sessions[i := c.(pc := Looked(found))])
      case Create(i, x) =>
        s.(made := s.made + {x}, owned := s.owned + {x}, sessions := s.sessions[i := c.(temp := Some(x), pc := Acquired(x))])
      case Drop(i) =>
        s.(owned := Released(s.owned, c.token), sessions := s.sessions[i := c.(token := None, pc := Dropped(c.pc.found.value))])
      case Acquire(i) =>
        var x := c.pc.target;
        s.(owned := s.owned + {x},
           sessions := s.sessions[i := c.(temp := if x in s.owned then None else Some(x), pc := Acquired(x))])
      case Assign(i) =>
        s.(owned := Released(s.owned, c.token),
           sessions := s.sessions[i := c.(token := c.temp, temp := None, pc := Assigned(c.pc.target))])
      case Commit(i) =>
        s.(sessions := s.sessions[i := c.(source := if c.token == None then c.source else Some(c.pc.target), pc := Idle)])
      case Close(i) => s.(owned := Released(s.owned, c.token), sessions := s.sessions - {i})
  }

  // ---------------------------------------------------------------- what every step keeps

  /** A session's token, in its field or on its way there. */
  function TokenOf(s: State, sid: Sid, inField: bool): Option<Src> {
    if sid !in s.sessions then None else if inField then s.sessions[sid].token else s.sessions[sid].temp
  }

  predicate Live(s: State, sid: Sid, inField: bool, x: Src) {
    TokenOf(s, sid, inField) == Some(x)
  }

  ghost predicate HasToken(s: State, x: Src) {
    exists sid, inField :: Live(s, sid, inField, x)
  }

  ghost predicate OneToken(s: State) {
    forall x, a, b, p, q | Live(s, a, p, x) && Live(s, b, q, x) :: a == b && p == q
  }

  ghost predicate FlagsExact(s: State) {
    forall x :: x in s.owned <==> HasToken(s, x)
  }

  /** The fields of a session fit its place in the code. */
  predicate Consistent(c: Session) {
    match c.pc
    case Idle => c.temp == None && (c.token.Some? ==> c.source == c.token)
    case Looked(_) => c.temp == None && (c.token.Some? ==> c.source == c.token)
    case Dropped(_) => c.temp == None && c.token == None
    case Acquired(x) => (c.temp.Some? ==> c.temp == Some(x)) && (c.token.Some? ==> c.source == c.token && c.temp.Some?)
    case Assigned(x) => c.temp == None && (c.token.Some? ==> c.token == Some(x))
  }

  /** Only sources that exist are aimed at. */
  predicate TargetMade(pc: Pc, made: set<Src>) {
    match pc
    case Idle => true
    case Looked(found) => found.Some? ==> found.value in made
    case Dropped(x) => x in made
    case Acquired(x) => x in made
    case Assigned(x) => x in made
  }

  ghost predicate Invariant(s: State) {
    && OneToken(s) && FlagsExact(s) && s.owned <= s.made
    && forall i | i in s.sessions :: Consistent(s.sessions[i]) && TargetMade(s.sessions[i].pc, s.made)
  }

  function AsSet(token: Option<Src>): set<Src> {
    if token.Some? then {token.value} else {}
  }

  /** Session `i` changes and nobody else: its tokens are the only ones to look at. */
  lemma TokensChange(s: State, t: State, i: Sid)
    requires OneToken(s) && FlagsExact(s)
    requires forall j, p | j != i :: TokenOf(t, j, p) == TokenOf(s, j, p)
    requires var tok, tmp := TokenOf(t, i, true), TokenOf(t, i, false);
             && (tok.Some? ==> tok != tmp)
             && (tok in {None, TokenOf(s, i, true), TokenOf(s, i, false)} || tok.value !in s.owned)
             && (tmp in {None, TokenOf(s, i, true), TokenOf(s, i, false)} || tmp.value !in s.owned)
             && t.owned == s.owned - AsSet(TokenOf(s, i, true)) - AsSet(TokenOf(s, i, false)) + AsSet(tok) + AsSet(tmp)
    ensures OneToken(t) && FlagsExact(t)
  {
    forall x, a, b, p, q | Live(t, a, p, x) && Live(t, b, q, x)
      ensures a == b && p == q
    {
      OnlyOne(s, t, i, x, a, p, b, q);
    }
    forall x
      ensures x in t.owned <==> HasToken(t, x)
    {
      if x in t.owned && !Live(t, i, true, x) && !Live(t, i, false, x) {
        var j, p :| Live(s, j, p, x);
        assert Live(t, j, p, x);
      }
      if HasToken(t, x) {
        var j, p :| Live(t, j, p, x);
        if j != i {
          assert Live(s, j, p, x) && HasToken(s, x);
          assert !Live(s, i, true, x) && !Live(s, i, false, x);
        } else {
          assert p || !p;
        }
      }
    }
  }

  lemma OnlyOne(s: State, t: State, i: Sid, x: Src, a: Sid, p: bool, b: Sid, q: bool)
    requires OneToken(s) && FlagsExact(s)
    requires forall j, p | j != i :: TokenOf(t, j, p) == TokenOf(s, j, p)
    requires var tok, tmp := TokenOf(t, i, true), TokenOf(t, i, false);
             && (tok.Some? ==> tok != tmp)
             && (tok in {None, TokenOf(s, i, true), TokenOf(s, i, false)} || tok.value !in s.owned)
             && (tmp in {None, TokenOf(s, i, true), TokenOf(s, i, false)} || tmp.value !in s.owned)
    requires Live(t, a, p, x) && Live(t, b, q, x)
    ensures a == b && p == q
  {
    assert a != i ==> Live(s, a, p, x) && HasToken(s, x);
    assert b != i ==> Live(s, b, q, x) && HasToken(s, x);
    assert a == i != b ==> Live(s, i, true, x) || Live(s, i, false, x);
    assert b == i != a ==> Live(s, i, true, x) || Live(s, i, false, x);
  }

  lemma StepKeeps(s: State, e: Step)
    requires Invariant(s) && Enabled(s, e)
    ensures Invariant(Apply(s, e))
  {
    hide HasToken, OneToken, FlagsExact;
    var t := Apply(s, e);
    SessionTokens(s, e.sid);
    assert e.Connect? || Consistent(s.sessions[e.sid]);
    TokensChange(s, t, e.sid);
  }

  /** A session's two tokens are different, and their flags are set. */
  lemma SessionTokens(s: State, i: Sid)
    requires OneToken(s) && FlagsExact(s)
    ensures AsSet(TokenOf(s, i, true)) + AsSet(TokenOf(s, i, false)) <= s.owned
    ensures TokenOf(s, i, true).Some? ==> TokenOf(s, i, true) != TokenOf(s, i, false)
  {
    forall p | TokenOf(s, i, p).Some?
      ensures TokenOf(s, i, p).value in s.owned
    {
      assert Live(s, i, p, TokenOf(s, i, p).value);
    }
    if TokenOf(s, i, true).Some? && TokenOf(s, i, true) == TokenOf(s, i, false) {
      var x := TokenOf(s, i, true).value;
      assert Live(s, i, true, x) && Live(s, i, false, x);
    }
  }

  ghost predicate Legal(run: seq<Step>)
    decreases |run|, 0
  {
    run == [] || (Legal(run[..|run| - 1]) && Enabled(After(run[..|run| - 1]), run[|run| - 1]))
  }

  ghost function After(run: seq<Step>): State
    requires Legal(run)
    decreases |run|, 1
  {
    if run == [] then Start() else Apply(After(run[..|run| - 1]), run[|run| - 1])
  }

  lemma {:induction false} AlwaysInvariant(run: seq<Step>)
    requires Legal(run)
    ensures Invariant(After(run))
    decreases |run|
  {
    if run != [] {
      hide Invariant, Apply, Enabled;
      AlwaysInvariant(run[..|run| - 1]);
      StepKeeps(After(run[..|run| - 1]), run[|run| - 1]);
    }
  }

  /** `handle_chunk` on audio and video: the session may feed its source. */
  predicate MayFeed(s: State, i: Sid) {
    i in s.sessions && s.sessions[i].pc.Idle? && s.sessions[i].source.Some? && s.sessions[i].token.Some?
  }

  /** Main result: in every run a source's flag is set exactly when one token for it is live,
      and a session that may feed a source is the one that holds its token. */
  lemma SinglePublisher(run: seq<Step>, i: Sid)
    requires Legal(run)
    ensures var s := After(run);
            && (forall x :: x in s.owned <==> HasToken(s, x))
            && (forall x, a, b, p, q | Live(s, a, p, x) && Live(s, b, q, x) :: a == b && p == q)
            && (MayFeed(s, i) ==> Live(s, i, true, s.sessions[i].source.value)
                                  && forall j | MayFeed(s, j) && s.sessions[j].source == s.sessions[i].source :: j == i)
  {
    AlwaysInvariant(run);
    var s := After(run);
    hide Legal, After, HasToken;
    if MayFeed(s, i) {
      var x := s.sessions[i].source.value;
      forall j | MayFeed(s, j) && s.sessions[j].source == s.sessions[i].source
        ensures j == i
      {
        assert Consistent(s.sessions[j]) && Consistent(s.sessions[i]);
        assert Live(s, j, true, x) && Live(s, i, true, x);
      }
    }
  }

  /** Over all sources of one path: of those that are live and registered there is one, so one
      session feeds what players of the path can find. */
  lemma OnePublisherPerPath(s: State, r: Registry.State, path: Registry.Path, a: Sid, b: Sid)
    requires Invariant(s) && Registry.Tied(r) && Registry.Complete(path)
    requires MayFeed(s, a) && MayFeed(s, b)
    requires Registry.Holds(r, s.sessions[a].source.value, path) && Registry.Holds(r, s.sessions[b].source.value, path)
    ensures a == b
  {
    hide Registry.Lookup, Registry.Shaped, HasToken;
    assert Consistent(s.sessions[a]) && Consistent(s.sessions[b]);
    var x := s.sessions[a].source.value;
    assert s.sessions[b].source.value == x;
    assert Live(s, a, true, x) && Live(s, b, true, x);
  }

  /** Reconnecting succeeds exactly when no other session holds the token when it is asked
      for; a failed attempt leaves the session without any. */
  lemma ReconnectIff(s: State, i: Sid)
    requires Invariant(s) && Enabled(s, Acquire(i))
    ensures var x := s.sessions[i].pc.target;
            var t := Apply(Apply(Apply(s, Acquire(i)), Assign(i)), Commit(i));
            && Invariant(t)
            && (MayFeed(t, i) && t.sessions[i].source == Some(x) <==> forall j, p :: !Live(s, j, p, x))
            && (!MayFeed(t, i) ==> t.sessions[i].token == None && t.owned == s.owned)
  {
    StepKeeps(s, Acquire(i));
    StepKeeps(Apply(s, Acquire(i)), Assign(i));
    StepKeeps(Apply(Apply(s, Acquire(i)), Assign(i)), Commit(i));
    assert Consistent(s.sessions[i]);
    hide Invariant;
    FlagMeansToken(s, s.sessions[i].pc.target);
  }

  /** Publishing where no source was found always succeeds, and lets go of the source that was
      published before. */
  lemma CreatePublishes(s: State, i: Sid, x: Src)
    requires Invariant(s) && Enabled(s, Create(i, x))
    ensures var t := Apply(Apply(Apply(s, Create(i, x)), Assign(i)), Commit(i));
            && Invariant(t) && MayFeed(t, i) && t.sessions[i].source == Some(x)
            && (s.sessions[i].token.Some? ==> !HasToken(t, s.sessions[i].token.value))
  {
    var s1 := Apply(s, Create(i, x));
    var s2 := Apply(s1, Assign(i));
    var t := Apply(s2, Commit(i));
    StepKeeps(s, Create(i, x));
    StepKeeps(s1, Assign(i));
    StepKeeps(s2, Commit(i));
    if s.sessions[i].token.Some? {
      var y := s.sessions[i].token.value;
      assert Live(s, i, true, y);
      FlagMeansToken(s, y);
      FlagMeansToken(t, y);
    }
  }

  /** Main result: publishing a stream whose source was found ends, when nobody comes in
      between, with the session feeding that source if and only if no other session holds a
      token for it; a failed attempt leaves the session its old source and no token, and its own
      token for another source is gone either way. */
  lemma PublishFoundIff(s: State, i: Sid, x: Src)
    requires Invariant(s) && Enabled(s, Look(i, Some(x)))
    ensures var t := PublishedFound(s, i, x);
            && Invariant(t) && i in t.sessions && t.sessions[i].pc == Idle
            && (MayFeed(t, i) && t.sessions[i].source == Some(x) <==> forall j, p | Live(s, j, p, x) :: j == i)
            && (!MayFeed(t, i) ==> t.sessions[i].token == None && t.sessions[i].source == s.sessions[i].source)
            && (s.sessions[i].token.Some? && s.sessions[i].token != Some(x) ==> !HasToken(t, s.sessions[i].token.value))
  {
    hide OneToken, FlagsExact, HasToken;
    StepKeeps(s, Look(i, Some(x)));
    var s1 := Apply(s, Look(i, Some(x)));
    StepKeeps(s1, Drop(i));
    var s2 := Apply(s1, Drop(i));
    ReconnectIff(s2, i);
    var t := PublishedFound(s, i, x);
    assert Consistent(s.sessions[i]);
    DroppedTokens(s, s2, i, x);
    if s.sessions[i].token.Some? {
      var y := s.sessions[i].token.value;
      assert Live(s, i, true, y);
      FlagMeansToken(s, y);
      FlagMeansToken(t, y);
      HasTokenMeans(t, y);
    }
  }

  function PublishedFound(s: State, i: Sid, x: Src): State
    requires Enabled(s, Look(i, Some(x)))
  {
    Apply(Apply(Apply(Apply(Apply(s, Look(i, Some(x))), Drop(i)), Acquire(i)), Assign(i)), Commit(i))
  }

  /** When the session has dropped its token, the live tokens are those of the others. */
  lemma DroppedTokens(s: State, t: State, i: Sid, x: Src)
    requires i in s.sessions && i in t.sessions && s.sessions[i].temp == None
    requires t.sessions[i].token == None && t.sessions[i].temp == None
    requires forall j | j != i :: (j in s.sessions <==> j in t.sessions) && (j in s.sessions ==> t.sessions[j] == s.sessions[j])
    ensures (forall j, p :: !Live(t, j, p, x)) <==> forall j, p | Live(s, j, p, x) :: j == i
  {
    forall j, p | j != i
      ensures Live(t, j, p, x) <==> Live(s, j, p, x)
    {
    }
    if forall j, p :: !Live(t, j, p, x) {
      forall j, p | Live(s, j, p, x)
        ensures j == i
      {
        assert !Live(t, j, p, x);
      }
    }
  }

  lemma HasTokenMeans(s: State, x: Src)
    ensures HasToken(s, x) <==> exists j, p :: Live(s, j, p, x)
  {
  }

  /** A session always has a next step: at rest it can publish any source there is or a new one,
      or close; on its way it can go on. */
  lemma NeverStuck(s: State, i: Sid, x: Src)
    requires Invariant(s)
    ensures i !in s.sessions ==> Enabled(s, Connect(i))
    ensures i in s.sessions ==>
              match s.sessions[i].pc
              case Idle => Enabled(s, Look(i, None)) && Enabled(s, Close(i)) && (x in s.made ==> Enabled(s, Look(i, Some(x))))
              case Looked(found) => if found == None then x !in s.made ==> Enabled(s, Create(i, x)) else Enabled(s, Drop(i))
              case Dropped(_) => Enabled(s, Acquire(i))
              case Acquired(_) => Enabled(s, Assign(i))
              case Assigned(_) => Enabled(s, Commit(i))
  {
  }

  /** A step is its own session's affair: all others keep their fields, and a session is there
      from when it connects to when it closes. */
  lemma StepTouchesOne(s: State, e: Step, j: Sid)
    requires Enabled(s, e)
    ensures var t := Apply(s, e);
            && (j in t.sessions <==> (j in s.sessions || e == Connect(j)) && e != Close(j))
            && (j != e.sid && j in s.sessions ==> t.sessions[j] == s.sessions[j])
            && (e == Connect(j) ==> t.sessions[j] == Session(None, None, None, Idle))
            && t.made == if e.Create? then s.made + {e.source} else s.made
  {
  }

  lemma FlagMeansToken(s: State, x: Src)
    requires Invariant(s)
    ensures x in s.owned <==> exists j, p :: Live(s, j, p, x)
  {
  }

  /** A publisher that goes away frees its source. */
  lemma CloseFrees(s: State, i: Sid)
    requires Invariant(s) && MayFeed(s, i)
    ensures var t := Apply(s, Close(i));
            Invariant(t) && !HasToken(t, s.sessions[i].source.value)
  {
    StepKeeps(s, Close(i));
    assert Consistent(s.sessions[i]);
  }

  // ---------------------------------------------------------------- sessions and flags

  class Publishing {
    var sessions: map<Sid, Session>
    var owned: set<Src>
    var made: set<Src>

    function View(): State
      reads this
    {
      State(sessions, owned, made)
    }

    constructor ()
      ensures View() == Start() && Invariant(View())
    {
      sessions, owned, made := map[], {}, {};
    }

    /** `owned_.test_and_set()`: a token unless the source is owned already. */
    method GetOwnership(x: Src) returns (token: Option<Src>)
      modifies this`owned
      ensures owned == old(owned) + {x} && token == if x in old(owned) then None else Some(x)
    {
      if x in owned {
        token := None;
      } else {
        token := Some(x);
      }
      owned := owned + {x};
    }

    /** The deleter of a token. */
    method Release(token: Option<Src>)
      modifies this`owned
      ensures owned == Released(old(owned), token)
    {
      if token.Some? {
        owned := owned - {token.value};
      }
    }

    method AddSession(i: Sid)
      requires Invariant(View()) && i !in sessions
      modifies this
      ensures View() == Apply(old(View()), Connect(i)) && Invariant(View())
    {
      hide Invariant;
      StepKeeps(View(), Connect(i));
      sessions := sessions[i := Session(None, None, None, Idle)];
    }

    method FindSource(i: Sid, found: Option<Src>)
      requires Invariant(View()) && Enabled(View(), Look(i, found))
      modifies this
      ensures View() == Apply(old(View()), Look(i, found)) && Invariant(View())
    {
      hide Invariant;
      StepKeeps(View(), Look(i, found));
      sessions := sessions[i := sessions[i].(pc := Looked(found))];
    }

    /** No source was found: make one. Its flag is clear, so the token is there. */
    method CreateSource(i: Sid, x: Src)
      requires Invariant(View()) && Enabled(View(), Create(i, x))
      modifies this
      ensures View() == Apply(old(View()), Create(i, x)) && Invariant(View())
    {
      assert x !in owned;
      StepKeeps(View(), Create(i, x));
      made := made + {x};
      var token := GetOwnership(x);
      sessions := sessions[i := sessions[i].(temp := token, pc := Acquired(x))];
    }

    /** A source was found: let go of the present token. */
    method ResetToken(i: Sid)
      requires Invariant(View()) && Enabled(View(), Drop(i))
      modifies this
      ensures View() == Apply(old(View()), Drop(i)) && Invariant(View())
    {
      hide Invariant;
      StepKeeps(View(), Drop(i));
      var c := sessions[i];
      Release(c.token);
      sessions := sessions[i := c.(token := None, pc := Dropped(c.pc.found.value))];
    }

    method AcquireToken(i: Sid)
      requires Invariant(View()) && Enabled(View(), Acquire(i))
      modifies this
      ensures View() == Apply(old(View()), Acquire(i)) && Invariant(View())
    {
      hide Invariant;
      StepKeeps(View(), Acquire(i));
      var c := sessions[i];
      var token := GetOwnership(c.pc.target);
      sessions := sessions[i := c.(temp := token, pc := Acquired(c.pc.target))];
    }

    /** `src_ownership_ = ...`: the old token goes when the new one is in its place. */
    method AssignToken(i: Sid)
      requires Invariant(View()) && Enabled(View(), Assign(i))
      modifies this
      ensures View() == Apply(old(View()), Assign(i)) && Invariant(View())
    {
      hide Invariant;
      StepKeeps(View(), Assign(i));
      var c := sessions[i];
      Release(c.token);
      sessions := sessions[i := c.(token := c.temp, temp := None, pc := Assigned(c.pc.target))];
    }

    /** False when the exception is thrown. */
    method CommitSource(i: Sid) returns (ok: bool)
      requires Invariant(View()) && Enabled(View(), Commit(i))
      modifies this
      ensures View() == Apply(old(View()), Commit(i)) && Invariant(View()) && ok == MayFeed(View(), i)
    {
      hide Invariant;
      StepKeeps(View(), Commit(i));
      var c := sessions[i];
      ok := c.token.Some?;
      if ok {
        c := c.(source := Some(c.pc.target));
      } 
      sessions := sessions[i := c.(pc := Idle)];
      if ok {
        assert MayFeed(View(), i);
      }
    }

    method CloseSession(i: Sid)
      requires Invariant(View()) && Enabled(View(), Close(i))
      modifies this
      ensures View() == Apply(old(View()), Close(i)) && Invariant(View())
    {
      hide Invariant;
      StepKeeps(View(), Close(i));
      Release(sessions[i].token);
      sessions := sessions - {i};
    }
  }
}
