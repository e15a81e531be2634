/** FLV framing: what `flv_muxer` sends to a player. A file header, a zero size, and tags,
    each followed by its size (sections E.2 to E.4 of the Video File Format Specification,
    version 10.1). */
module FlvMuxers {
  import opened Bytes

  const FILE_HEADER: seq<byte> := [0x46, 0x4C, 0x56, 1, 5, 0, 0, 0, 9]
  const FIRST_SIZE: seq<byte> := [0, 0, 0, 0]
  const TAG_HEADER := 11

  datatype Tag = Tag(tagType: byte, timeStamp: uint32, body: seq<byte>)

  // ---------------------------------------------------------------- writing

  /** `prepare_flv_tag_header`: the size and the low part of the timestamp in 24 bits, then the
      high part, then a stream id of 0. */
  function TagHeader(tagType: byte, size: nat, timeStamp: uint32): (r: seq<byte>)
    ensures |r| == TAG_HEADER
  {
    [tagType] + SetBe24(size) + SetBe24(timeStamp % TWO_24) + [timeStamp / TWO_24 % 0x100] + [0, 0, 0]
  }

  function EncodeTag(t: Tag): seq<byte> {
    TagHeader(t.tagType, |t.body|, t.timeStamp) + t.body + SetBe32(TAG_HEADER + |t.body|)
  }

  function EncodeTags(tags: seq<Tag>): seq<byte> {
    if tags == [] then [] else EncodeTags(tags[..|tags| - 1]) + EncodeTag(tags[|tags| - 1])
  }

  function Stream(tags: seq<Tag>): seq<byte> {
    FILE_HEADER + FIRST_SIZE + EncodeTags(tags)
  }

  // ---------------------------------------------------------------- reading

  /** A tag at the front, its stream id 0, checked against the size behind it. */
  function ParseTag(s: seq<byte>): (r: Option<(Tag, seq<byte>)>)
    ensures r.Some? ==> |r.value.1| < |s|
  {
    if |s| < TAG_HEADER + 4 then None else
    var n := LoadBe24(s[1..]);
    var stamp := s[7] as int * TWO_24 + LoadBe24(s[4..]);
    if |s| < TAG_HEADER + n + 4 || LoadBe32(s[TAG_HEADER + n..]) != TAG_HEADER + n || s[8..11] != [0, 0, 0] then None
    else Some((Tag(s[0], stamp, s[TAG_HEADER..TAG_HEADER + n]), s[TAG_HEADER + n + 4..]))
  }

  function ParseTags(s: seq<byte>): Option<seq<Tag>>
    decreases |s|
  {
    if s == [] then Some([]) else
    if ParseTag(s) == None then None else
    var (t, rest) := ParseTag(s).value;
    if ParseTags(rest) == None then None else Some([t] + ParseTags(rest).value)
  }

  /** A whole file by section E.2 and section E.3: the signature "FLV", version 1, the flags for
      audio (4) and video (1), the length of the file header, a size of 0, and the tags. */
  function ParseFile(s: seq<byte>): Option<(bool, bool, seq<Tag>)> {
    if |s| < 13 || s[..4] != [0x46, 0x4C, 0x56, 1] || s[4] / 8 != 0 || s[4] / 2 % 2 != 0 then None else
    var offset: nat := LoadBe32(s[5..]);
    if offset < 9 || offset + 4 > |s| || LoadBe32(s[offset..]) != 0 || ParseTags(s[offset + 4..]) == None then None else
    Some((s[4] / 4 == 1, s[4] % 2 == 1, ParseTags(s[offset + 4..]).value))
  }

  /** From the end of a stream, size by size, to the first size that is 0: the tags passed, the
      last one first, and what is in front of that size. */
  function WalkBack(s: seq<byte>): Option<(seq<Tag>, seq<byte>)>
    decreases |s|
  {
    if |s| < 4 then None else
    var n: nat := LoadBe32(s[|s| - 4..]);
    if n == 0 then Some(([], s[..|s| - 4])) else
    if |s| < n + 4 || ParseTag(s[|s| - 4 - n..]) == None then None else
    var before := s[..|s| - 4 - n];
    if WalkBack(before) == None then None else
    Some(([ParseTag(s[|s| - 4 - n..]).value.0] + WalkBack(before).value.0, WalkBack(before).value.1))
  }

  // ---------------------------------------------------------------- round trips

  predicate Fits(t: Tag) {
    |t.body| < TWO_24
  }

  predicate AllFit(tags: seq<Tag>) {
    forall i | 0 <= i < |tags| :: Fits(tags[i])
  }

  function Reversed(tags: seq<Tag>): (r: seq<Tag>)
    ensures |r| == |tags| && forall i | 0 <= i < |tags| :: r[i] == tags[|tags| - 1 - i]
  {
    if tags == [] then [] else [tags[|tags| - 1]] + Reversed(tags[..|tags| - 1])
  }

  lemma StampHalves(stamp: uint32)
    ensures stamp / TWO_24 % 0x100 == stamp / TWO_24 && stamp / TWO_24 * TWO_24 + stamp % TWO_24 == stamp
  {
  }

  /** The fields of a header, and the bytes behind it. */
  lemma HeaderFields(t: Tag, rest: seq<byte>)
    ensures var s := TagHeader(t.tagType, |t.body|, t.timeStamp) + rest;
            && s[0] == t.tagType && LoadBe24(s[1..]) == |t.body| % TWO_24
            && s[7] as int * TWO_24 + LoadBe24(s[4..]) == t.timeStamp && s[8..11] == [0, 0, 0]
  {
    hide SetBe24, LoadBe24;
    var stamp := t.timeStamp;
    var s := TagHeader(t.tagType, |t.body|, stamp) + rest;
    var third := [stamp / TWO_24 % 0x100] + [0, 0, 0] + rest;
    assert s[4..] == SetBe24(stamp % TWO_24) + third;
    assert s[1..] == SetBe24(|t.body|) + s[4..];
    Be24RoundTrip(|t.body|, s[4..]);
    Be24RoundTrip(stamp % TWO_24, third);
    StampHalves(stamp);
  }

  /** A tag is read back exactly when its size fits the 24 bits it is given. */
  lemma TagRoundTripIff(t: Tag, rest: seq<byte>)
    ensures ParseTag(EncodeTag(t) + rest) == Some((t, rest)) <==> Fits(t)
  {
    hide TagHeader, SetBe32, LoadBe32, LoadBe24, ParseTag;
    var h := TagHeader(t.tagType, |t.body|, t.timeStamp);
    var size := SetBe32(TAG_HEADER + |t.body|);
    var s := EncodeTag(t) + rest;
    Pieces(h, t.body, size, rest);
    HeaderFields(t, t.body + size + rest);
    if Fits(t) {
      Word32RoundTrip(TAG_HEADER + |t.body|, rest);
      ParsePieces(s, t, rest);
    } else {
      ParsedSize(s);
    }
  }

  lemma Pieces(h: seq<byte>, body: seq<byte>, size: seq<byte>, rest: seq<byte>)
    ensures h + body + size + rest == h + (body + size + rest)
    ensures (h + body + size + rest)[|h|..|h| + |body|] == body
    ensures (h + body + size + rest)[|h| + |body|..] == size + rest
    ensures (h + body + size + rest)[|h| + |body| + |size|..] == rest
  {
  }

  lemma ParsePieces(s: seq<byte>, t: Tag, rest: seq<byte>)
    requires |s| >= TAG_HEADER + |t.body| + 4
    requires s[0] == t.tagType && LoadBe24(s[1..]) == |t.body| && s[8..11] == [0, 0, 0] && s[7] as int * TWO_24 + LoadBe24(s[4..]) == t.timeStamp
    requires LoadBe32(s[TAG_HEADER + |t.body|..]) == TAG_HEADER + |t.body|
    requires s[TAG_HEADER..TAG_HEADER + |t.body|] == t.body && s[TAG_HEADER + |t.body| + 4..] == rest
    ensures ParseTag(s) == Some((t, rest))
  {
    hide LoadBe24, LoadBe32;
  }

  lemma ParsedSize(s: seq<byte>)
    ensures ParseTag(s).Some? ==> |s| >= 4 && |ParseTag(s).value.0.body| == LoadBe24(s[1..])
  {
    hide LoadBe24, LoadBe32;
  }

  lemma {:induction false} TagsCons(t: Tag, tags: seq<Tag>)
    ensures EncodeTags([t] + tags) == EncodeTag(t) + EncodeTags(tags)
    decreases |tags|
  {
    hide EncodeTag;
    if tags == [] {
      assert ([t] + tags)[..0] == [] && [t] + tags == [t];
    } else {
      var front, last := tags[..|tags| - 1], tags[|tags| - 1];
      TagsCons(t, front);
      assert ([t] + tags)[..|tags|] == [t] + front;
      Assoc(EncodeTag(t), EncodeTags(front), EncodeTag(last));
    }
  }

  /** Main result: read forward, a stream gives the tags that were written, exactly. */
  lemma {:induction false} ForwardRoundTrip(tags: seq<Tag>)
    requires AllFit(tags)
    ensures ParseTags(EncodeTags(tags)) == Some(tags)
    decreases |tags|
  {
    hide EncodeTag, ParseTag;
    if tags != [] {
      var t, more := tags[0], tags[1..];
      assert tags == [t] + more;
      TagsCons(t, more);
      TagRoundTripIff(t, EncodeTags(more));
      TagNotEmpty(t);
      ForwardRoundTrip(more);
    }
  }

  /** Main result: what a player is sent from the first byte on is a file that announces audio
      and video and has exactly the tags written. */
  lemma FileRoundTrip(tags: seq<Tag>)
    requires AllFit(tags)
    ensures ParseFile(Stream(tags)) == Some((true, true, tags))
  {
    hide EncodeTags, ParseTags;
    var s := Stream(tags);
    assert s[..4] == [0x46, 0x4C, 0x56, 1] && s[4] == 5;
    assert s[5..][..4] == [0, 0, 0, 9] && s[9..][..4] == [0, 0, 0, 0];
    assert s[13..] == EncodeTags(tags);
    ForwardRoundTrip(tags);
  }

  lemma TagNotEmpty(t: Tag)
    ensures |EncodeTag(t)| == TAG_HEADER + |t.body| + 4
    ensures EncodeTag(t)[TAG_HEADER + |t.body|..] == SetBe32(TAG_HEADER + |t.body|)
  {
    hide TagHeader, SetBe32;
  }

  /** The last size leads to the front of the last tag. */
  lemma WalkStep(base: seq<byte>, t: Tag)
    requires Fits(t) && WalkBack(base).Some?
    ensures WalkBack(base + EncodeTag(t)) == Some(([t] + WalkBack(base).value.0, WalkBack(base).value.1))
  {
    hide EncodeTag, ParseTag, LoadBe32, SetBe32, WalkBack;
    var s := base + EncodeTag(t);
    var n := TAG_HEADER + |t.body|;
    TagNotEmpty(t);
    LastFour(base, EncodeTag(t), n);
    Word32RoundTrip(n, []);
    TagRoundTripIff(t, []);
    assert EncodeTag(t) + [] == EncodeTag(t) && SetBe32(n) + [] == SetBe32(n);
    WalkOnce(s, n, t, base);
  }

  lemma WalkOnce(s: seq<byte>, n: nat, t: Tag, base: seq<byte>)
    requires 0 < n && n + 4 <= |s| && LoadBe32(s[|s| - 4..]) == n
    requires ParseTag(s[|s| - 4 - n..]) == Some((t, [])) && s[..|s| - 4 - n] == base && WalkBack(base).Some?
    ensures WalkBack(s) == Some(([t] + WalkBack(base).value.0, WalkBack(base).value.1))
  {
    hide ParseTag, LoadBe32;
  }

  lemma LastFour(base: seq<byte>, e: seq<byte>, n: nat)
    requires |e| == n + 4
    ensures var s := base + e; s[|s| - 4..] == e[n..] && s[|s| - 4 - n..] == e && s[..|s| - 4 - n] == base
  {
  }

  lemma StreamSnoc(tags: seq<Tag>, t: Tag)
    ensures Stream(tags + [t]) == Stream(tags) + EncodeTag(t)
  {
    hide EncodeTag;
    assert (tags + [t])[..|tags|] == tags;
    Assoc(FILE_HEADER + FIRST_SIZE, EncodeTags(tags), EncodeTag(t));
  }

  lemma WalkEnds()
    ensures WalkBack(Stream([])) == Some(([], FILE_HEADER))
  {
    var s := Stream([]);
    assert s == FILE_HEADER + FIRST_SIZE;
    assert s[|s| - 4..] == FIRST_SIZE && s[..|s| - 4] == FILE_HEADER;
  }

  /** Main result: walked backward by the size fields, it gives them in reverse, and ends
      behind the file header. */
  lemma {:induction false} BackwardRoundTrip(tags: seq<Tag>)
    requires AllFit(tags)
    ensures WalkBack(Stream(tags)) == Some((Reversed(tags), FILE_HEADER))
    decreases |tags|
  {
    hide EncodeTag, WalkBack, Stream;
    if tags == [] {
      WalkEnds();
    } else {
      var front, t := tags[..|tags| - 1], tags[|tags| - 1];
      BackwardRoundTrip(front);
      assert tags == front + [t];
      StreamSnoc(front, t);
      WalkStep(Stream(front), t);
    }
  }

  // ---------------------------------------------------------------- the muxer

  class FlvMuxer {
    var sent: seq<byte>
    ghost var tags: seq<Tag>

    ghost predicate Started()
      reads this
    {
      sent == Stream(tags)
    }

    constructor ()
      ensures sent == [] && tags == []
    {
      sent, tags := [], [];
    }

    /** The file header and the first, zero, size. */
    method StartMuxing()
      requires sent == [] && tags == []
      modifies this
      ensures Started() && tags == []
    {
      sent := sent + FILE_HEADER;
      sent := sent + FIRST_SIZE;
    }

    /** `write_flv`; an empty body is refused. */
    method WriteFlv(t: Tag) returns (ok: bool)
      requires Started()
      modifies this
      ensures Started() && ok == (t.body != [])
      ensures tags == if ok then old(tags) + [t] else old(tags)
    {
      hide TagHeader, SetBe32, Stream;
      if t.body == [] {
        return false;
      }
      ghost var start := sent;
      var header := TagHeader(t.tagType, |t.body|, t.timeStamp);
      sent := sent + header;
      sent := sent + t.body;
      sent := sent + SetBe32(|header| + |t.body|);
      assert sent == start + EncodeTag(t);
      StreamSnoc(tags, t);
      tags := tags + [t];
      ok := true;
    }
  }
}
