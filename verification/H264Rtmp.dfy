/** Video payloads: `h264_rtmp_decoder` and the configuration record that `h264_track` reads.
    A payload is a run of NAL units, each behind a four-byte length; it becomes a run of
    units behind start codes. */
module H264Rtmp {
  import opened Bytes
  import opened FlatBuffers

  const START_CODE: seq<byte> := [0, 0, 0, 1]

  /** A frame handed to the track. */
  datatype NalFrame = NalFrame(data: seq<byte>, dts: uint32, pts: uint32)

  // ---------------------------------------------------------------- units and lengths

  /** The units behind their lengths. */
  function Avcc(units: seq<seq<byte>>): seq<byte> {
    if units == [] then [] else Avcc(units[..|units| - 1]) + SetBe32(|units[|units| - 1]|) + units[|units| - 1]
  }

  predicate Sized(units: seq<seq<byte>>) {
    forall i | 0 <= i < |units| :: |units[i]| < TWO_32
  }

  /** One step of the loop: the next unit and what follows it. */
  function NextUnit(s: seq<byte>): (r: Option<(seq<byte>, seq<byte>)>)
    ensures r.Some? ==> |r.value.1| < |s|
  {
    if |s| < 4 || LoadBe32(s) > |s| - 4 then None
    else
      var n: nat := LoadBe32(s);
      Some((s[4..4 + n], s[4 + n..]))
  }

  /** The units `split_nal_frame` finds. */
  function Units(s: seq<byte>): seq<seq<byte>>
    decreases |s|
  {
    if NextUnit(s) == None then [] else [NextUnit(s).value.0] + Units(NextUnit(s).value.1)
  }

  /** What the loop has not consumed when it ends; a length that is too long is consumed. */
  function Leftover(s: seq<byte>): seq<byte>
    decreases |s|
  {
    if NextUnit(s).Some? then Leftover(NextUnit(s).value.1) else if |s| < 4 then s else s[4..]
  }

  /** A length field announcing a body that is not there. */
  predicate Dangling(tail: seq<byte>) {
    |tail| == 4 && LoadBe32(tail) > 0
  }

  lemma {:induction false} AvccSnoc(units: seq<seq<byte>>, u: seq<byte>)
    ensures Avcc(units + [u]) == Avcc(units) + SetBe32(|u|) + u
  {
    assert (units + [u])[..|units|] == units;
  }

  lemma {:induction false} AvccCons(u: seq<byte>, units: seq<seq<byte>>)
    ensures Avcc([u] + units) == SetBe32(|u|) + u + Avcc(units)
    decreases |units|
  {
    hide Avcc, SetBe32;
    if units == [] {
      assert [u] + units == [] + [u];
      AvccSnoc([], u);
      AvccNone();
      assert [] + SetBe32(|u|) + u == SetBe32(|u|) + u + [];
    } else {
      var front, last := units[..|units| - 1], units[|units| - 1];
      AvccCons(u, front);
      assert [u] + units == ([u] + front) + [last];
      AvccSnoc([u] + front, last);
      assert units == front + [last];
      AvccSnoc(front, last);
      Assoc(SetBe32(|u|) + u, Avcc(front), SetBe32(|last|));
      Assoc(SetBe32(|u|) + u, Avcc(front) + SetBe32(|last|), last);
    }
  }

  /** Reading the length of a unit back. */
  lemma NextOfUnit(u: seq<byte>, rest: seq<byte>)
    requires |u| < TWO_32
    ensures NextUnit(SetBe32(|u|) + u + rest) == Some((u, rest))
  {
    hide SetBe32, LoadBe32;
    Word32RoundTrip(|u|, u + rest);
    UnitParts(SetBe32(|u|), u, rest);
  }

  lemma UnitParts(size: seq<byte>, u: seq<byte>, rest: seq<byte>)
    requires |size| == 4
    ensures var s := size + u + rest; s == size + (u + rest) && s[4..4 + |u|] == u && s[4 + |u|..] == rest
  {
  }

  /** Main result: whatever list of units is written, exactly that list is found, and
      everything is consumed, also when a dangling length follows. */
  lemma {:induction false} UnitsOfAvcc(units: seq<seq<byte>>, tail: seq<byte>)
    requires Sized(units) && (tail == [] || Dangling(tail))
    ensures Units(Avcc(units) + tail) == units && Leftover(Avcc(units) + tail) == []
    decreases |units|
  {
    if units == [] {
      assert Avcc(units) + tail == tail;
    } else {
      var u, more := units[0], units[1..];
      assert units == [u] + more;
      AvccCons(u, more);
      assert Avcc(units) + tail == SetBe32(|u|) + u + (Avcc(more) + tail);
      NextOfUnit(u, Avcc(more) + tail);
      UnitsOfAvcc(more, tail);
    }
  }

  /** The units found are the beginning of the payload, whatever the payload is. */
  lemma {:induction false} UnitsArePrefix(s: seq<byte>) returns (tail: seq<byte>)
    ensures Sized(Units(s)) && s == Avcc(Units(s)) + tail && NextUnit(tail) == None
    ensures Leftover(s) == if |tail| < 4 then tail else tail[4..]
    decreases |s|
  {
    hide Avcc, SetBe32, LoadBe32;
    if NextUnit(s) == None {
      tail := s;
      AvccNone();
    } else {
      var (u, rest) := NextUnit(s).value;
      tail := UnitsArePrefix(rest);
      AvccCons(u, Units(rest));
      UnitInFront(s);
      Assoc(SetBe32(|u|) + u, Avcc(Units(rest)), tail);
    }
  }

  lemma AvccNone()
    ensures Avcc([]) == []
  {
  }

  lemma UnitInFront(s: seq<byte>)
    requires NextUnit(s).Some?
    ensures var (u, rest) := NextUnit(s).value; |u| < TWO_32 && s == SetBe32(|u|) + u + rest
  {
    Word32Bytes(s);
    hide SetBe32;
    var (u, rest) := NextUnit(s).value;
    assert s == s[..4] + u + rest;
  }

  ghost predicate WellFormed(s: seq<byte>) {
    exists units, tail :: Composed(s, units, tail)
  }

  predicate Composed(s: seq<byte>, units: seq<seq<byte>>, tail: seq<byte>) {
    Sized(units) && (tail == [] || Dangling(tail)) && s == Avcc(units) + tail
  }

  /** Main result: nothing is left over exactly when the payload is a run of units behind
      their lengths, apart from a last length with no body. */
  lemma ConsumedIff(s: seq<byte>)
    ensures Leftover(s) == [] <==> WellFormed(s)
  {
    if Leftover(s) == [] {
      var tail := UnitsArePrefix(s);
      assert Composed(s, Units(s), tail);
    }
    if WellFormed(s) {
      var units, tail :| Composed(s, units, tail);
      UnitsOfAvcc(units, tail);
    }
  }

  // ---------------------------------------------------------------- timestamps

  /** The 24-bit two's complement number in three bytes. */
  function CompositionTime(v: nat): int
    requires v < TWO_24
  {
    if v < 0x80_0000 then v else v - TWO_24
  }

  /** Exclusive or of a 32-bit word with nine ones followed by zeros. */
  function FlipTopNine(w: nat): nat
    requires w < TWO_32
  {
    (0x1FF - w / 0x80_0000) * 0x80_0000 + w % 0x80_0000
  }

  /** The presentation time as it is computed, on 32-bit words. */
  function PresentationTime(dts: uint32, v: nat): (pts: uint32)
    requires v < TWO_24
  {
    (dts + FlipTopNine((v + 0xff80_0000) % TWO_32)) % TWO_32
  }

  /** Adding the mask and flipping its bits extends the sign: the composition time is added
      modulo 2^32. */
  lemma PresentationIsOffset(dts: uint32, v: nat)
    requires v < TWO_24
    ensures PresentationTime(dts, v) == (dts + CompositionTime(v)) % TWO_32
  {
    var w := (v + 0xff80_0000) % TWO_32;
    if v < 0x80_0000 {
      assert w == 0x1FF * 0x80_0000 + v;
      DivModUnique(w, 0x80_0000, 0x1FF, v);
      assert FlipTopNine(w) == v;
    } else {
      assert w == v - 0x80_0000;
      DivModUnique(w, 0x80_0000, 0, w);
      assert FlipTopNine(w) == v - TWO_24 + TWO_32;
      assert (dts + (v - TWO_24) + TWO_32) % TWO_32 == (dts + (v - TWO_24)) % TWO_32;
    }
  }

  // ---------------------------------------------------------------- the decoder

  function Framed(units: seq<seq<byte>>, dts: uint32, pts: uint32): (r: seq<NalFrame>)
    ensures |r| == |units|
  {
    seq(|units|, i requires 0 <= i < |units| => NalFrame(START_CODE + units[i], dts, pts))
  }

  method SplitNalFrame(buf: FlatBuffer, dts: uint32, pts: uint32) returns (ok: bool, frames: seq<NalFrame>)
    requires buf.Valid()
    modifies buf`readIndex
    ensures buf.Valid() && frames == Framed(Units(old(buf.Unread())), dts, pts)
    ensures buf.Unread() == Leftover(old(buf.Unread())) && ok == (buf.Unread() == [])
  {
    hide *;
    frames := [];
    FramedNone(dts, pts);
    ghost var all := buf.Unread();
    ghost var found: seq<seq<byte>> := [];
    while buf.UnreadLength() >= 4
      invariant buf.Valid()
      invariant frames == Framed(found, dts, pts)
      invariant Units(all) == found + Units(buf.Unread())
      invariant Leftover(all) == Leftover(buf.Unread())
      decreases |buf.Unread()|
    {
      var unit := TakeUnit(buf);
      if unit == None {
        break;
      }
      FramedMore(found, unit.value, dts, pts);
      frames := frames + [NalFrame(START_CODE + unit.value, dts, pts)];
      Assoc(found, [unit.value], Units(buf.Unread()));
      found := found + [unit.value];
    }
    if buf.UnreadLength() < 4 {
      NothingToSplit(buf.Unread());
    }
    assert found + [] == found;
    ok := buf.UnreadLength() == 0;
  }

  /** The body of the loop up to the new frame: a length, and the unit if it is there. */
  method TakeUnit(buf: FlatBuffer) returns (unit: Option<seq<byte>>)
    requires buf.Valid() && buf.UnreadLength() >= 4
    modifies buf`readIndex
    ensures buf.Valid()
    ensures var s, t := old(buf.Unread()), buf.Unread();
            |t| < |s|
            && (unit == None ==> Units(s) == [] && t == Leftover(s))
            && (unit.Some? ==> Units(s) == [unit.value] + Units(t) && Leftover(s) == Leftover(t))
  {
    hide LoadBe32;
    ghost var s := buf.Unread();
    var frameLen := buf.ReadUint32();
    if frameLen.value > buf.UnreadLength() {
      return None;
    }
    var front := buf.Front(frameLen.value);
    var _ := buf.ConsumeOrFail(frameLen.value);
    UnitFound(s, front, buf.Unread());
    unit := Some(front);
  }

  lemma NothingToSplit(s: seq<byte>)
    requires |s| < 4
    ensures Units(s) == [] && Leftover(s) == s
  {
  }

  lemma UnitFound(s: seq<byte>, unit: seq<byte>, rest: seq<byte>)
    requires |s| >= 4 && LoadBe32(s) <= |s| - 4
    requires unit == s[4..][..LoadBe32(s)] && rest == s[4..][LoadBe32(s)..]
    ensures |rest| < |s| && NextUnit(s) == Some((unit, rest)) && Units(s) == [unit] + Units(rest) && Leftover(s) == Leftover(rest)
  {
    hide LoadBe32;
    assert unit == s[4..4 + LoadBe32(s)] && rest == s[4 + LoadBe32(s)..];
  }

  lemma FramedNone(dts: uint32, pts: uint32)
    ensures Framed([], dts, pts) == []
  {
  }

  lemma FramedMore(units: seq<seq<byte>>, u: seq<byte>, dts: uint32, pts: uint32)
    ensures Framed(units + [u], dts, pts) == Framed(units, dts, pts) + [NalFrame(START_CODE + u, dts, pts)]
  {
  }
}
