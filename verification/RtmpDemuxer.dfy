/** Demuxing a published packet: `rtmp_demuxer::input_rtmp` and the decoders it runs. They
    consume the packet's own buffer; a snapshot puts it back. */
module RtmpDemuxers {
  import opened Bytes
  import opened FlatBuffers
  import opened RtmpPackets
  import opened H264Rtmp

  // ---------------------------------------------------------------- the AVC configuration

  datatype Config = Config(sps: seq<byte>, pps: seq<byte>)

  /** A record: six bytes, a sequence parameter set, a count, a picture parameter set. */
  function ParsedConfig(s: seq<byte>): Option<Config> {
    if |s| < 6 || TakeSized(s[6..]) == None then None else
    var (sps, rest) := TakeSized(s[6..]).value;
    if |rest| < 1 || TakeSized(rest[1..]) == None then None else
    Some(Config(sps, TakeSized(rest[1..]).value.0))
  }

  /** Main result: the parameter sets of every configuration record are found, whatever its
      other bytes are. */
  lemma ConfigRoundTrip(head: seq<byte>, count: byte, config: Config, tail: seq<byte>)
    requires |head| == 6 && |config.sps| < 0x1_0000 && |config.pps| < 0x1_0000
    ensures ParsedConfig(head + (SetBe16(|config.sps|) + config.sps
                                 + ([count] + (SetBe16(|config.pps|) + config.pps + tail)))) == Some(config)
  {
    hide SetBe16, TakeSized;
    var rest := SetBe16(|config.pps|) + config.pps + tail;
    var mid := SetBe16(|config.sps|) + config.sps + ([count] + rest);
    assert (head + mid)[6..] == mid;
    TakeSizedBack(config.sps, [count] + rest);
    assert ([count] + rest)[1..] == rest;
    TakeSizedBack(config.pps, tail);
  }

  /** A record in the form of section 5.2.4.1 of ISO/IEC 14496-15, with one set of each kind. */
  function Record(head: seq<byte>, count: byte, config: Config, tail: seq<byte>): seq<byte> {
    head + (SetBe16(|config.sps|) + config.sps + ([count] + (SetBe16(|config.pps|) + config.pps + tail)))
  }

  ghost predicate IsRecord(s: seq<byte>, config: Config) {
    exists head, count, tail :: RecordParts(s, head, count, config, tail)
  }

  predicate RecordParts(s: seq<byte>, head: seq<byte>, count: byte, config: Config, tail: seq<byte>) {
    |head| == 6 && |config.sps| < 0x1_0000 && |config.pps| < 0x1_0000 && s == Record(head, count, config, tail)
  }

  /** Main result: parameter sets are found in exactly the byte strings that are a record with
      those sets. */
  lemma ConfigIff(s: seq<byte>, config: Config)
    ensures ParsedConfig(s) == Some(config) <==> IsRecord(s, config)
  {
    hide SetBe16, TakeSized;
    if ParsedConfig(s) == Some(config) {
      TakeSizedParts(s[6..]);
      var rest := TakeSized(s[6..]).value.1;
      TakeSizedParts(rest[1..]);
      var tail := TakeSized(rest[1..]).value.1;
      assert rest == [rest[0]] + rest[1..] && s == s[..6] + s[6..];
      assert RecordParts(s, s[..6], rest[0], config, tail);
    }
    if IsRecord(s, config) {
      var head, count, tail :| RecordParts(s, head, count, config, tail);
      ConfigRoundTrip(head, count, config, tail);
    }
  }

  function ConfigFrame(bytes: seq<byte>): seq<NalFrame> {
    if bytes == [] then [] else [NalFrame(START_CODE + bytes, 0, 0)]
  }

  class H264Track {
    var sps: seq<byte>
    var pps: seq<byte>
    var output: seq<NalFrame>

    constructor ()
      ensures sps == pps == [] && output == []
    {
      sps, pps, output := [], [], [];
    }

    /** `read_uint16`, `require_length_or_fail` and the copy. */
    method ReadSet(buf: FlatBuffer) returns (bytes: Option<seq<byte>>)
      requires buf.Valid()
      modifies buf`readIndex
      ensures buf.Valid() && buf.readIndex >= old(buf.readIndex)
      ensures bytes == if TakeSized(old(buf.Unread())) == None then None else Some(TakeSized(old(buf.Unread())).value.0)
      ensures bytes.Some? ==> buf.Unread() == TakeSized(old(buf.Unread())).value.1
    {
      var size := buf.ReadUint16();
      if size == None || size.value > buf.UnreadLength() {
        return None;
      }
      bytes := Some(buf.Front(size.value));
      var _ := buf.ConsumeOrFail(size.value);
    }

    /** `spsOk`: the parser accepts the sequence parameter set. */
    method ParseConfig(buf: FlatBuffer, spsOk: bool) returns (ok: bool)
      requires buf.Valid()
      modifies this, buf`readIndex
      ensures buf.Valid() && buf.readIndex >= old(buf.readIndex)
      ensures var c := ParsedConfig(old(buf.Unread()));
              && ok == (c.Some? && (|c.value.sps| < 4 || spsOk))
              && (ok ==> sps == c.value.sps && pps == c.value.pps
                         && output == old(output) + (ConfigFrame(sps) + ConfigFrame(pps)))
              && (!ok ==> output == old(output))
    {
      hide TakeSized;
      var enough := buf.ConsumeOrFail(6);
      if !enough {
        return false;
      }
      var ps := ReadSet(buf);
      if ps == None {
        return false;
      }
      sps := ps.value;
      enough := buf.ConsumeOrFail(1);
      if !enough {
        return false;
      }
      ps := ReadSet(buf);
      if ps == None {
        return false;
      }
      pps := ps.value;
      if |sps| >= 4 && !spsOk {
        return false;
      }
      output := output + (ConfigFrame(sps) + ConfigFrame(pps));
      ok := true;
    }
  }

  // ---------------------------------------------------------------- audio

  /** Raw AAC, to go behind an ADTS header made from the configuration. */
  datatype AacFrame = AacFrame(config: seq<byte>, payload: seq<byte>, stamp: uint32)

  class AacTrack {
    var config: seq<byte>
    var output: seq<AacFrame>

    constructor ()
      ensures config == [] && output == []
    {
      config, output := [], [];
    }
  }

  // ---------------------------------------------------------------- the demuxer

  /** What a packet leads to when nothing throws. */
  datatype Outcome = VideoConfig(config: Config) | Video(frames: seq<NalFrame>)
                   | AudioConfig(bytes: seq<byte>) | Audio(frame: AacFrame)

  /** `h264_rtmp_decoder::input_rtmp`. */
  function VideoOutcome(f: Frame, spsOk: bool): Option<Outcome>
    requires f.msgType == MSG_VIDEO
  {
    if |f.body| < 5 then None
    else if IsConfigFrame(f) == Some(true) then
      var c := ParsedConfig(f.body[5..]);
      if c.Some? && (|c.value.sps| < 4 || spsOk) then Some(VideoConfig(c.value)) else None
    else
      var pts := PresentationTime(f.timeStamp, LoadBe24(f.body[2..]));
      if Leftover(f.body[5..]) == [] then Some(Video(Framed(Units(f.body[5..]), f.timeStamp, pts))) else None
  }

  /** Main result: of a picture message, two bytes, a composition time and units behind their
      lengths, every unit becomes a frame behind a start code, in order, with the time of the
      message for decoding and that plus the composition time for presentation. */
  lemma PictureArrives(head: seq<byte>, v: nat, units: seq<seq<byte>>, stamp: uint32, spsOk: bool)
    requires |head| == 2 && v < TWO_24 && H264Rtmp.Sized(units)
    requires IsConfigFrame(Picture(head, v, units, stamp)) != Some(true)
    ensures var r := VideoOutcome(Picture(head, v, units, stamp), spsOk);
            && r.Some? && r.value.Video? && |r.value.frames| == |units|
            && forall i | 0 <= i < |units| ::
                 r.value.frames[i] == NalFrame([0, 0, 0, 1] + units[i], stamp, (stamp + CompositionTime(v)) % TWO_32)
  {
    hide IsConfigFrame, Avcc, Units, Leftover, SetBe24, LoadBe24, PresentationTime, CompositionTime;
    var body := Picture(head, v, units, stamp).body;
    assert body[2..] == SetBe24(v) + Avcc(units) && body[5..] == Avcc(units) == Avcc(units) + [];
    Be24RoundTrip(v, Avcc(units));
    UnitsOfAvcc(units, []);
    PresentationIsOffset(stamp, v);
  }

  function Picture(head: seq<byte>, v: nat, units: seq<seq<byte>>, stamp: uint32): Frame {
    Frame(MSG_VIDEO, head + (SetBe24(v) + Avcc(units)), stamp)
  }

  /** Main result: a video message makes the decoder throw exactly if it has fewer than five
      bytes, or is a config frame without a record behind them or with a sequence parameter set
      of four or more bytes that does not parse, or is another frame with no run of units. */
  lemma VideoRefusedIff(f: Frame, spsOk: bool)
    requires f.msgType == MSG_VIDEO
    ensures VideoOutcome(f, spsOk) == None <==>
              || |f.body| < 5
              || (IsConfigFrame(f) == Some(true) && forall c | IsRecord(f.body[5..], c) :: |c.sps| >= 4 && !spsOk)
              || (IsConfigFrame(f) != Some(true) && !WellFormed(f.body[5..]))
    ensures |f.body| >= 5 && IsConfigFrame(f) == Some(true) ==>
              forall c :: VideoOutcome(f, spsOk) == Some(VideoConfig(c)) <==> IsRecord(f.body[5..], c) && (|c.sps| < 4 || spsOk)
  {
    hide IsConfigFrame, ParsedConfig, IsRecord, WellFormed, Units, Leftover, Framed, PresentationTime;
    if |f.body| >= 5 {
      forall c
        ensures ParsedConfig(f.body[5..]) == Some(c) <==> IsRecord(f.body[5..], c)
      {
        ConfigIff(f.body[5..], c);
      }
      ConsumedIff(f.body[5..]);
    }
  }

  /** A parameter set that is not empty becomes one frame behind a start code, at time 0. */
  lemma ConfigFrames(bytes: seq<byte>)
    ensures |ConfigFrame(bytes)| == (if bytes == [] then 0 else 1)
    ensures bytes != [] ==> ConfigFrame(bytes)[0] == NalFrame([0, 0, 0, 1] + bytes, 0, 0)
  {
  }

  /** Main result: an AAC message gives its third byte and what follows it: as the new
      configuration if it is a config frame, else as a frame with the time of the message and
      the configuration held; and when it makes the decoder throw. */
  lemma AudioArrives(first: byte, second: byte, payload: seq<byte>, stamp: uint32, config: seq<byte>)
    ensures var isConfig := 0xA0 <= first < 0xB0 && second == 0;
            AudioOutcome(Frame(MSG_AUDIO, [first, second] + payload, stamp), config)
            == if isConfig then (if |payload| >= 2 then Some(AudioConfig(payload)) else None)
               else if |config| >= 2 then Some(Audio(AacFrame(config, payload, stamp))) else None
    ensures AudioOutcome(Frame(MSG_AUDIO, [], stamp), config) == AudioOutcome(Frame(MSG_AUDIO, [first], stamp), config) == None
  {
    var f := Frame(MSG_AUDIO, [first, second] + payload, stamp);
    AudioConfigIff(f);
    AudioConfigIff(Frame(MSG_AUDIO, [], stamp));
    AudioConfigIff(Frame(MSG_AUDIO, [first], stamp));
    hide IsConfigFrame;
    assert f.body[2..] == payload;
  }

  /** `aac_rtmp_decoder::input_rtmp`, with the configuration its track holds. */
  function AudioOutcome(f: Frame, config: seq<byte>): Option<Outcome>
    requires f.msgType == MSG_AUDIO
  {
    if |f.body| < 2 then None
    else if IsConfigFrame(f) == Some(true) then
      if |f.body| < 4 then None else Some(AudioConfig(f.body[2..]))
    else if |config| < 2 then None
    else Some(Audio(AacFrame(config, f.body[2..], f.timeStamp)))
  }

  class RtmpDemuxer {
    var video: Option<H264Track>
    var audio: Option<AacTrack>

    constructor (video: Option<H264Track>, audio: Option<AacTrack>)
      ensures this.video == video && this.audio == audio
    {
      this.video, this.audio := video, audio;
    }

    ghost function Tracks(): set<object>
      reads this
    {
      (if video.Some? then {video.value} else {}) + (if audio.Some? then {audio.value} else {})
    }

    method DecodeVideo(track: H264Track, f: Frame, buf: FlatBuffer, spsOk: bool) returns (ok: bool)
      requires buf.Valid() && f.msgType == MSG_VIDEO && f.body == buf.Unread()
      modifies track, buf`readIndex
      ensures buf.Valid() && ok == VideoOutcome(f, spsOk).Some?
      ensures ok ==> (match VideoOutcome(f, spsOk).value
                      case VideoConfig(c) => track.sps == c.sps && track.pps == c.pps
                        && track.output == old(track.output) + (ConfigFrame(c.sps) + ConfigFrame(c.pps))
                      case Video(frames) => track.sps == old(track.sps) && track.pps == old(track.pps)
                        && track.output == old(track.output) + frames
                      case _ => false)
    {
      hide Units, Leftover, Framed, ParsedConfig, PresentationTime, IsConfigFrame, ConfigFrame;
      if buf.UnreadLength() < 5 {
        return false;
      }
      if IsConfigFrame(f) == Some(true) {
        var _ := buf.ConsumeOrFail(5);
        ok := track.ParseConfig(buf, spsOk);
        return;
      }
      var _ := buf.ConsumeOrFail(2);
      assert buf.Unread() == f.body[2..];
      var pts := PresentationTime(f.timeStamp, LoadBe24(buf.Front(3)));
      assert LoadBe24(buf.Front(3)) == LoadBe24(f.body[2..]);
      var _ := buf.ConsumeOrFail(3);
      assert buf.Unread() == f.body[5..];
      var frames: seq<NalFrame>;
      ok, frames := SplitNalFrame(buf, f.timeStamp, pts);
      track.output := track.output + frames;
    }

    method DecodeAudio(track: AacTrack, f: Frame, buf: FlatBuffer) returns (ok: bool)
      requires buf.Valid() && f.msgType == MSG_AUDIO && f.body == buf.Unread()
      modifies track, buf`readIndex
      ensures buf.Valid() && ok == AudioOutcome(f, old(track.config)).Some?
      ensures ok ==> (match AudioOutcome(f, old(track.config)).value
                      case AudioConfig(c) => track.config == c && track.output == old(track.output)
                      case Audio(frame) => track.config == old(track.config) && track.output == old(track.output) + [frame]
                      case _ => false)
    {
      hide IsConfigFrame;
      if buf.UnreadLength() < 2 {
        return false;
      }
      var isConfig := IsConfigFrame(f) == Some(true);
      var _ := buf.ConsumeOrFail(2);
      var payload := buf.Front(buf.UnreadLength());
      assert payload == f.body[2..];
      if isConfig {
        if buf.UnreadLength() < 2 {
          return false;
        }
        track.config := payload;
        return true;
      }
      if |track.config| < 2 {
        return false;
      }
      track.output := track.output + [AacFrame(track.config, payload, f.timeStamp)];
      ok := true;
    }

    /** Main result: whichever decoder runs and however much it consumes, on every normal
        return the packet's buffer is as it was; its bytes are never written. */
    method InputRtmp(msgType: byte, timeStamp: uint32, buf: FlatBuffer, spsOk: bool) returns (ok: bool)
      requires buf.Valid()
      modifies buf`readIndex, buf`writeIndex, buf`capacity, buf`capacityTemp, buf`readIndexTemp, buf`writeIndexTemp, Tracks()
      ensures buf.Valid() && buf.data == old(buf.data) && buf.data[..] == old(buf.data[..])
      ensures ok ==> buf.readIndex == old(buf.readIndex) && buf.writeIndex == old(buf.writeIndex)
                     && buf.Unread() == old(buf.Unread())
      ensures ok == if msgType == MSG_VIDEO && video.Some? then VideoOutcome(Frame(msgType, old(buf.Unread()), timeStamp), spsOk).Some?
                    else if msgType == MSG_AUDIO && audio.Some?
                    then AudioOutcome(Frame(msgType, old(buf.Unread()), timeStamp), old(audio.value.config)).Some?
                    else true
      ensures msgType != MSG_VIDEO && video.Some? ==> unchanged(video.value)
      ensures msgType != MSG_AUDIO && audio.Some? ==> unchanged(audio.value)
      ensures ok && msgType == MSG_VIDEO && video.Some? ==>
                (match VideoOutcome(Frame(msgType, old(buf.Unread()), timeStamp), spsOk).value
                 case VideoConfig(c) => video.value.sps == c.sps && video.value.pps == c.pps
                   && video.value.output == old(video.value.output) + (ConfigFrame(c.sps) + ConfigFrame(c.pps))
                 case Video(frames) => video.value.sps == old(video.value.sps) && video.value.pps == old(video.value.pps)
                   && video.value.output == old(video.value.output) + frames
                 case _ => false)
      ensures ok && msgType == MSG_AUDIO && audio.Some? ==>
                (match AudioOutcome(Frame(msgType, old(buf.Unread()), timeStamp), old(audio.value.config)).value
                 case AudioConfig(c) => audio.value.config == c && audio.value.output == old(audio.value.output)
                 case Audio(frame) =>
                   && audio.value.config == old(audio.value.config)
                   && audio.value.output == old(audio.value.output) + [frame]
                 case _ => false)
    {
      hide VideoOutcome, AudioOutcome;
      var f := Frame(msgType, buf.Front(buf.UnreadLength()), timeStamp);
      assert f.body == buf.Unread();
      buf.CaptureSnapshot();
      ok := true;
      if msgType == MSG_VIDEO && video.Some? {
        ok := DecodeVideo(video.value, f, buf, spsOk);
      } else if msgType == MSG_AUDIO && audio.Some? {
        ok := DecodeAudio(audio.value, f, buf);
      }
      if ok {
        buf.RestoreSnapshot();
      }
    }
  }
}
