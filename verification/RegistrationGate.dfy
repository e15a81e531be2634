/** Which frames a source publishes, and when it is registered: the gate of
    `rtmp_media_source::process_av_packet`, over whole runs from a new source. */
module RegistrationGates {
  import opened Bytes
  import opened RtmpPackets
  import opened PacketDispatchers
  import opened RtmpMediaSources
  import opened JoiningPlayers

  /** Audio or video that the demuxer takes and that the query for config frames does not
      throw on. */
  predicate Proper(e: Step) {
    e.Begin? && e.accepted && e.frame.msgType in {MSG_AUDIO, MSG_VIDEO} && IsConfigFrame(e.frame).Some?
  }

  /** A frame that registers its source. */
  predicate Plain(f: Frame) {
    IsConfigFrame(f) == Some(false)
  }

  ghost predicate SomePlain(fs: seq<Frame>) {
    exists i :: 0 <= i < |fs| && Plain(fs[i])
  }

  /** The frames before the first plain one. */
  function BeforePlain(fs: seq<Frame>): (r: seq<Frame>)
    ensures r <= fs
  {
    if fs == [] || Plain(fs[0]) then [] else [fs[0]] + BeforePlain(fs[1..])
  }

  /** The proper frames of a run, in order. */
  function Offered(run: seq<Step>): seq<Frame> {
    if run == [] then [] else
    Offered(run[..|run| - 1]) + if Proper(run[|run| - 1]) then [run[|run| - 1].frame] else []
  }

  /** Those that get through: config frames always; others once one came while the name of the
      source was free. */
  ghost function Admitted(run: seq<Step>): seq<Frame> {
    if run == [] then [] else
    var before, e := Admitted(run[..|run| - 1]), run[|run| - 1];
    before + if Proper(e) && (!Plain(e.frame) || e.free || SomePlain(before)) then [e.frame] else []
  }

  lemma {:induction false} BeforePlainAll(fs: seq<Frame>)
    ensures !SomePlain(fs) <==> BeforePlain(fs) == fs
    decreases |fs|
  {
    if fs != [] {
      BeforePlainAll(fs[1..]);
      if SomePlain(fs[1..]) {
        var i :| 0 <= i < |fs[1..]| && Plain(fs[1..][i]);
        assert Plain(fs[i + 1]);
      }
      if SomePlain(fs) && !Plain(fs[0]) {
        var i :| 0 <= i < |fs| && Plain(fs[i]);
        assert Plain(fs[1..][i - 1]);
      }
      assert fs == [fs[0]] + fs[1..];
    }
  }

  lemma SomePlainSnoc(fs: seq<Frame>, f: Frame)
    ensures SomePlain(fs + [f]) <==> SomePlain(fs) || Plain(f)
  {
    hide Plain;
    assert (fs + [f])[|fs|] == f;
    if SomePlain(fs) {
      var i :| 0 <= i < |fs| && Plain(fs[i]);
      assert (fs + [f])[i] == fs[i];
    }
  }

  lemma {:induction false} BeforePlainSnoc(fs: seq<Frame>, f: Frame)
    ensures BeforePlain(fs + [f]) == if !SomePlain(fs) && !Plain(f) then fs + [f] else BeforePlain(fs)
    decreases |fs|
  {
    hide Plain, SomePlain;
    BeforePlainAll(fs);
    if fs == [] {
      assert fs + [f] == [f] && [f][1..] == [];
    } else {
      BeforePlainSnoc(fs[1..], f);
      BeforePlainAll(fs[1..]);
      assert (fs + [f])[1..] == fs[1..] + [f];
      assert fs == [fs[0]] + fs[1..];
    }
  }

  /** The source has let exactly `fs` through. */
  ghost predicate HasPublished(s: Source, fs: seq<Frame>) {
    && s.published == fs
    && (s.registered <==> SomePlain(fs))
    && s.early == BeforePlain(fs)
    && History(s) + AsSeq(s.begun) == fs[|s.early|..]
    && (s.begun.Some? ==> s.dispatcher.phase.Idle?)
  }

  lemma BeginPublishes(s: Source, e: Step, fs: seq<Frame>)
    requires e.Begin? && s.dispatcher.maxSize > 0 && Ready(s, e) && HasPublished(s, fs)
    ensures HasPublished(Next(s, e), fs + if Proper(e) && (!Plain(e.frame) || e.free || SomePlain(fs)) then [e.frame] else [])
  {
    hide IsConfigFrame, Frames, SomePlain, BeforePlain;
    BeforePlainSnoc(fs, e.frame);
    SomePlainSnoc(fs, e.frame);
    BeforePlainAll(fs);
    var f, t := e.frame, Next(s, e);
    assert fs + [] == fs && History(s) + [] == History(s) && History(t) == History(s);
    assert fs[|s.early|..] + [f] == (fs + [f])[|s.early|..];
    assert Proper(e) ==> IsConfigFrame(f) == Some(IsConfigFrame(f).value);
    if !Proper(e) {
      assert t == s;
    } else if !Plain(f) && !s.registered {
      assert IsConfigFrame(f).value;
      assert t.early == s.early + [f];
      assert s.early == fs && t.early == fs + [f] && fs[|fs|..] == [];
      assert History(t) + AsSeq(t.begun) == [] == (fs + [f])[|t.early|..];
    } else if Plain(f) && !s.registered && !e.free {
      assert t == s;
    } else {
      assert t.begun == Some(f) && t.published == fs + [f] && t.early == s.early;
      assert History(t) + AsSeq(t.begun) == History(s) + [f];
    }
  }

  lemma OtherPublishes(s: Source, e: Step, fs: seq<Frame>)
    requires !e.Begin? && s.dispatcher.maxSize > 0 && Ready(s, e) && HasPublished(s, fs)
    ensures HasPublished(Next(s, e), fs)
  {
    hide Frames, SomePlain, BeforePlain, Served, Retained, IsKey, ConfigIsCurrent;
    if e.Distribute? {
      FramesSnoc(s.dispatcher.history, Packet(s.begun.value, IsKey(s.begun.value)));
    }
  }

  /** Main result: in every run from a new source, what it has published is exactly what was
      admitted, in order; it is registered if and only if a frame that is no config frame was
      among that; what came before the first such frame is only remembered, and all the rest,
      that frame included, has gone to the dispatcher or is just about to. */
  lemma {:induction false} GateExact(maxSize: nat, run: seq<Step>)
    requires LegalRun(NewSource(maxSize), run)
    ensures HasPublished(AfterRun(NewSource(maxSize), run), Admitted(run))
    decreases |run|
  {
    hide HasPublished, Next, Ready, LegalRun, AfterRun, NewSource, Proper, Plain;
    var o := NewSource(maxSize);
    NothingPublished(maxSize);
    EmptyRun(o);
    if run != [] {
      var before, e := run[..|run| - 1], run[|run| - 1];
      LastStep(o, run);
      GateExact(maxSize, before);
      if e.Begin? {
        BeginPublishes(AfterRun(o, before), e, Admitted(before));
      } else {
        OtherPublishes(AfterRun(o, before), e, Admitted(before));
        NotProper(e);
        assert Admitted(before) + [] == Admitted(before);
      }
    }
  }

  lemma NotProper(e: Step)
    requires !e.Begin?
    ensures !Proper(e)
  {
  }

  lemma NothingPublished(maxSize: nat)
    ensures NewSource(maxSize).dispatcher.maxSize > 0 && HasPublished(NewSource(maxSize), [])
  {
  }

  predicate NamesFree(run: seq<Step>) {
    forall i | 0 <= i < |run| && run[i].Begin? :: run[i].free
  }

  /** Main result: where no other source ever has the name, that is every proper frame. */
  lemma {:induction false} FreeNameAdmitsAll(run: seq<Step>)
    requires NamesFree(run)
    ensures Admitted(run) == Offered(run)
    decreases |run|
  {
    hide Proper, Plain;
    if run != [] {
      var before, e := run[..|run| - 1], run[|run| - 1];
      assert forall i | 0 <= i < |before| :: before[i] == run[i];
      FreeNameAdmitsAll(before);
      if !e.Begin? {
        NotProper(e);
      }
    }
  }
}
