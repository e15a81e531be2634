/** The queries of `rtmp_packet` on audio and video messages. `None` is a thrown exception. */
module RtmpPackets {
  import opened Bytes

  const MSG_AUDIO: byte := 8
  const MSG_VIDEO: byte := 9
  const KEY_FRAME := 1
  const CODEC_H264 := 7
  const CODEC_H265 := 12
  const CODEC_AAC := 10

  /** A message as the media source sees it; `body` is the unread part of its buffer. */
  datatype Frame = Frame(msgType: byte, body: seq<byte>, timeStamp: uint32)

  /** `is_video_keyframe`: the frame type, in an extended header without its top bit. */
  function IsVideoKeyframe(f: Frame): Option<bool> {
    if f.msgType != MSG_VIDEO then Some(false)
    else if f.body == [] then None
    else
      var high := f.body[0] / 0x10;
      Some((if high >= 8 then high - 8 else high) == KEY_FRAME)
  }

  /** `get_av_codec_id`; -1 for anything else than audio and video. */
  function AvCodecId(f: Frame): Option<int> {
    if f.body == [] then None else
    var first: int := f.body[0];
    if f.msgType == MSG_VIDEO then Some(first % 0x10)
    else if f.msgType == MSG_AUDIO then Some(first / 0x10)
    else Some(-1)
  }

  /** `is_config_frame`. */
  function IsConfigFrame(f: Frame): Option<bool> {
    if f.msgType == MSG_VIDEO then
      if IsVideoKeyframe(f) != Some(true) then IsVideoKeyframe(f)
      else if f.body[0] >= 0x80 then Some(f.body[0] % 0x10 == 0)
      else
        var codec := AvCodecId(f).value;
        if codec != CODEC_H264 && codec != CODEC_H265 then Some(false)
        else if |f.body| < 2 then None
        else Some(f.body[1] == 0)
    else if f.msgType == MSG_AUDIO then
      if |f.body| < 2 then None
      else Some(AvCodecId(f) == Some(CODEC_AAC) && f.body[1] == 0)
    else Some(false)
  }

  predicate IsConfig(f: Frame, msgType: byte) {
    f.msgType == msgType && IsConfigFrame(f) == Some(true)
  }

  predicate IsKey(f: Frame) {
    IsVideoKeyframe(f) == Some(true)
  }

  /** The video frames whose parameter sets the cache must not lose sight of: a configuration
      frame is a key frame, so it clears the cache, and the kind of codec shows in its first
      byte. */
  lemma VideoConfigIff(f: Frame)
    requires f.msgType == MSG_VIDEO
    ensures IsConfigFrame(f) == Some(true) <==>
              f.body != [] && (f.body[0] == 0x90 || (|f.body| >= 2 && f.body[0] in {0x17, 0x1C} && f.body[1] == 0))
    ensures IsConfigFrame(f) == Some(true) ==> IsKey(f)
    ensures IsConfigFrame(f) == None <==> f.body == [] || (|f.body| == 1 && f.body[0] in {0x17, 0x1C})
  {
  }

  /** The key frames are the video messages whose first byte begins with 1, or with 9 in an
      extended header; only an empty one makes the query throw. */
  lemma KeyframeIff(f: Frame)
    ensures IsKey(f) <==> f.msgType == 9 && f.body != [] && (0x10 <= f.body[0] < 0x20 || 0x90 <= f.body[0] < 0xA0)
    ensures IsVideoKeyframe(f) == None <==> f.msgType == 9 && f.body == []
  {
  }

  /** The audio config frames are AAC (section E.4.2 of the Video File Format Specification)
      with a second byte of 0; shorter messages make the query throw, and other messages are
      never config frames. */
  lemma AudioConfigIff(f: Frame)
    ensures f.msgType == 8 ==> (IsConfigFrame(f) == Some(true) <==> |f.body| >= 2 && 0xA0 <= f.body[0] < 0xB0 && f.body[1] == 0)
    ensures f.msgType == 8 ==> (IsConfigFrame(f) == None <==> |f.body| < 2)
    ensures f.msgType != 8 && f.msgType != 9 ==> IsConfigFrame(f) == Some(false)
  {
  }
}
