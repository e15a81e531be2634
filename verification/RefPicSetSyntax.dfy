/** The syntax of short-term reference picture sets (section 7.3.7 of ITU-T H.265): what the
    bits at a position say. A code of 32 or more leading zeros has no value. */
module RefPicSetSyntax {
  import opened Bytes
  import opened BitReaders

  const HEVC_MAX_REFS := 16
  const MAX_DELTA := 32768

  datatype Reading<+T> = Unknown | Refused | Read(value: T, next: nat)

  /** How far a picture is from its neighbour, and whether it is used. */
  datatype Gap = Gap(distance: nat, used: byte)

  /** The flag at `pos`; 255, the byte that -1 becomes, once the data has run out. */
  function Flag(buf: seq<byte>, pos: nat): (r: (byte, nat))
    requires pos <= 8 * |buf|
    ensures r.1 <= 8 * |buf|
  {
    if pos < 8 * |buf| then (BitAt(buf, pos), pos + 1) else (255, pos)
  }

  /** Behind the last bit every flag reads as 255. */
  lemma FlagsRunOut(buf: seq<byte>)
    ensures Flag(buf, 8 * |buf|) == (255, 8 * |buf|)
  {
  }

  /** A sign and a magnitude less one. */
  function DeltaAt(buf: seq<byte>, pos: nat): (r: Reading<int>)
    requires pos <= 8 * |buf|
    ensures r.Read? ==> r.next <= 8 * |buf|
  {
    var (sign, p) := Flag(buf, pos);
    if Unary(buf, p) >= 32 then Unknown else
    var (k, next) := Codenum(buf, p);
    CodenumInside(buf, p);
    var magnitude := (k + 1) % TWO_32;
    if 1 <= magnitude <= MAX_DELTA then Read((1 - 2 * sign as int) * magnitude, next) else Refused
  }

  function GapAt(buf: seq<byte>, pos: nat): (r: Reading<Gap>)
    requires pos <= 8 * |buf|
    ensures r.Read? ==> r.next <= 8 * |buf|
  {
    if Unary(buf, pos) >= 32 then Unknown else
    var (k, p) := Codenum(buf, pos);
    CodenumInside(buf, pos);
    if 1 <= k + 1 <= MAX_DELTA then Read(Gap(k + 1, Flag(buf, p).0), Flag(buf, p).1) else Refused
  }

  function GapsAt(buf: seq<byte>, pos: nat, n: nat): (r: Reading<seq<Gap>>)
    requires pos <= 8 * |buf|
    ensures r.Read? ==> r.next <= 8 * |buf| && |r.value| == n
  {
    if n == 0 then Read([], pos) else
    match GapsAt(buf, pos, n - 1)
    case Unknown => Unknown
    case Refused => Refused
    case Read(gaps, p) =>
      match GapAt(buf, p)
      case Unknown => Unknown
      case Refused => Refused
      case Read(g, next) => Read(gaps + [g], next)
  }

  /** Two counts, the gaps in front of the picture, and those behind it. */
  function ExplicitAt(buf: seq<byte>, pos: nat): Reading<(seq<Gap>, seq<Gap>)>
    requires pos <= 8 * |buf|
  {
    if Unary(buf, pos) >= 32 then Unknown else
    var (n, p) := Codenum(buf, pos);
    CodenumInside(buf, pos);
    if Unary(buf, p) >= 32 then Unknown else
    var (m, q) := Codenum(buf, p);
    CodenumInside(buf, p);
    if !(0 <= n < HEVC_MAX_REFS && 0 <= m < HEVC_MAX_REFS) then Refused else
    match GapsAt(buf, q, n)
    case Unknown => Unknown
    case Refused => Refused
    case Read(negatives, s) =>
      match GapsAt(buf, s, m)
      case Unknown => Unknown
      case Refused => Refused
      case Read(positives, next) => Read((negatives, positives), next)
  }

  lemma CodenumInside(buf: seq<byte>, pos: nat)
    requires pos <= 8 * |buf| && Unary(buf, pos) < 32
    ensures Codenum(buf, pos).1 <= 8 * |buf|
  {
    hide Unary, Extracted;
  }

  /** What stops the reading of gaps stops it for good. */
  lemma {:induction false} GapsStay(buf: seq<byte>, pos: nat, i: nat, n: nat)
    requires pos <= 8 * |buf| && i <= n
    ensures !GapsAt(buf, pos, i).Read? ==> GapsAt(buf, pos, n) == GapsAt(buf, pos, i)
    decreases n
  {
    hide GapAt;
    if i < n {
      GapsStay(buf, pos, i, n - 1);
    }
  }

  // ---------------------------------------------------------------- writing

  predicate Writable(g: Gap) {
    1 <= g.distance <= 32768 && g.used <= 1
  }

  predicate AllWritable(gaps: seq<Gap>) {
    forall i | 0 <= i < |gaps| :: Writable(gaps[i])
  }

  function GapBits(g: Gap): seq<nat>
    requires Writable(g)
  {
    ExpGolomb(g.distance - 1) + [g.used]
  }

  function GapsBits(gaps: seq<Gap>): seq<nat>
    requires AllWritable(gaps)
  {
    if gaps == [] then [] else GapsBits(gaps[..|gaps| - 1]) + GapBits(gaps[|gaps| - 1])
  }

  function ExplicitBits(negatives: seq<Gap>, positives: seq<Gap>): seq<nat>
    requires AllWritable(negatives) && AllWritable(positives)
  {
    ExpGolomb(|negatives|) + (ExpGolomb(|positives|) + (GapsBits(negatives) + GapsBits(positives)))
  }

  lemma HoldsParts(buf: seq<byte>, pos: nat, a: seq<nat>, b: seq<nat>)
    requires Holds(buf, pos, a + b)
    ensures Holds(buf, pos, a) && Holds(buf, pos + |a|, b)
  {
    hide BitAt;
    var s := a + b;
    assert forall i | 0 <= i < |a| :: s[i] == a[i];
    forall i | 0 <= i < |b|
      ensures BitAt(buf, pos + |a| + i) == b[i]
    {
      assert s[|a| + i] == b[i];
      assert BitAt(buf, pos + (|a| + i)) == s[|a| + i];
    }
  }

  /** A written gap that is out of range is refused. */
  lemma WideGapRefused(buf: seq<byte>, pos: nat, distance: nat)
    requires 32768 < distance < 0x400_0000 && Holds(buf, pos, ExpGolomb(distance - 1))
    ensures pos <= 8 * |buf| && GapAt(buf, pos) == Refused
  {
    hide Unary, Codenum, ExpGolomb, Holds, Flag;
    InsideWhenHeld(buf, pos, ExpGolomb(distance - 1));
    SmallCodenumRoundTrip(buf, pos, distance - 1);
  }

  /** Main result: the sign bit 1 means a negative difference, and the number written is one
      less than the magnitude, which is refused from 32769 on. */
  lemma DeltaRoundTrip(buf: seq<byte>, pos: nat, sign: byte, m: nat)
    requires sign <= 1 && m < 0x400_0000 - 1 && Holds(buf, pos, [sign] + ExpGolomb(m))
    ensures pos <= 8 * |buf|
    ensures DeltaAt(buf, pos) == if m >= 32768 then Refused
                                 else Read(if sign == 1 then -(m + 1) else m + 1, pos + 1 + |ExpGolomb(m)|)
  {
    hide Unary, Codenum, ExpGolomb, Holds, Flag, BitAt, DeltaAt;
    HoldsParts(buf, pos, [sign], ExpGolomb(m));
    InsideWhenHeld(buf, pos, [sign]);
    OneBit(buf, pos, sign);
    SmallCodenumRoundTrip(buf, pos + 1, m);
    DeltaRead(buf, pos, sign, m, pos + 1 + |ExpGolomb(m)|);
  }

  lemma DeltaRead(buf: seq<byte>, pos: nat, sign: byte, m: nat, next: nat)
    requires pos < 8 * |buf| && Flag(buf, pos) == (sign, pos + 1) && sign <= 1 && m < 0x400_0000 - 1
    requires Unary(buf, pos + 1) < 32 && Codenum(buf, pos + 1) == (m, next)
    ensures DeltaAt(buf, pos) == if m >= 32768 then Refused else Read(if sign == 1 then -(m + 1) else m + 1, next)
  {
    hide Unary, Codenum, Flag;
    assert (m + 1) % TWO_32 == m + 1;
    assert sign == 0 || sign == 1;
  }

  lemma GapRoundTrip(buf: seq<byte>, pos: nat, g: Gap)
    requires Writable(g) && Holds(buf, pos, GapBits(g))
    ensures pos <= 8 * |buf| && GapAt(buf, pos) == Read(g, pos + |GapBits(g)|)
  {
    hide Unary, Codenum, ExpGolomb, Holds, Flag, BitAt;
    var code := ExpGolomb(g.distance - 1);
    HoldsParts(buf, pos, code, [g.used]);
    InsideWhenHeld(buf, pos, code);
    SmallCodenumRoundTrip(buf, pos, g.distance - 1);
    OneBit(buf, pos + |code|, g.used);
  }

  lemma OneBit(buf: seq<byte>, pos: nat, b: byte)
    requires Holds(buf, pos, [b])
    ensures pos < 8 * |buf| && Flag(buf, pos) == (b, pos + 1)
  {
    hide BitAt;
    assert BitAt(buf, pos + 0) == [b][0];
  }

  lemma {:induction false} GapsRoundTrip(buf: seq<byte>, pos: nat, gaps: seq<Gap>)
    requires AllWritable(gaps) && Holds(buf, pos, GapsBits(gaps))
    ensures GapsAt(buf, pos, |gaps|) == Read(gaps, pos + |GapsBits(gaps)|)
    decreases |gaps|
  {
    hide Holds, GapAt, GapBits;
    if gaps == [] {
      InsideWhenHeld(buf, pos, []);
    } else {
      var front, g := gaps[..|gaps| - 1], gaps[|gaps| - 1];
      HoldsParts(buf, pos, GapsBits(front), GapBits(g));
      GapsRoundTrip(buf, pos, front);
      GapRoundTrip(buf, pos + |GapsBits(front)|, g);
      assert gaps == front + [g];
    }
  }

  lemma InsideWhenHeld(buf: seq<byte>, pos: nat, bits: seq<nat>)
    requires Holds(buf, pos, bits)
    ensures pos + |bits| <= 8 * |buf|
  {
  }

  /** Main result: the gaps of every explicit set within the limits are read back, and reading
      stops behind them. */
  lemma ExplicitRoundTrip(buf: seq<byte>, pos: nat, negatives: seq<Gap>, positives: seq<Gap>)
    requires AllWritable(negatives) && AllWritable(positives)
    requires |negatives| < 16 && |positives| < 16
    requires Holds(buf, pos, ExplicitBits(negatives, positives))
    ensures pos <= 8 * |buf|
    ensures ExplicitAt(buf, pos) == Read((negatives, positives), pos + |ExplicitBits(negatives, positives)|)
  {
    hide Holds, GapsAt, GapsBits, ExpGolomb, Unary, Codenum, AllWritable;
    var n, m := ExpGolomb(|negatives|), ExpGolomb(|positives|);
    var a, b := GapsBits(negatives), GapsBits(positives);
    InsideWhenHeld(buf, pos, ExplicitBits(negatives, positives));
    HoldsParts(buf, pos, n, m + (a + b));
    HoldsParts(buf, pos + |n|, m, a + b);
    HoldsParts(buf, pos + |n| + |m|, a, b);
    SmallCodenumRoundTrip(buf, pos, |negatives|);
    SmallCodenumRoundTrip(buf, pos + |n|, |positives|);
    GapsRoundTrip(buf, pos + |n| + |m|, negatives);
    GapsRoundTrip(buf, pos + |n| + |m| + |a|, positives);
  }

  /** Counts of 16 and more are refused. */
  lemma ManyRefused(buf: seq<byte>, pos: nat, n: nat, m: nat)
    requires n < 0x400_0000 - 1 && m < 0x400_0000 - 1 && (n >= 16 || m >= 16)
    requires Holds(buf, pos, ExpGolomb(n) + ExpGolomb(m))
    ensures pos <= 8 * |buf| && ExplicitAt(buf, pos) == Refused
  {
    hide Holds, GapsAt, ExpGolomb, Unary, Codenum;
    HoldsParts(buf, pos, ExpGolomb(n), ExpGolomb(m));
    InsideWhenHeld(buf, pos, ExpGolomb(n));
    SmallCodenumRoundTrip(buf, pos, n);
    SmallCodenumRoundTrip(buf, pos + |ExpGolomb(n)|, m);
  }
}
