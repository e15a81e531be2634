/** From written bits to reference picture sets: what each set holds, in terms of the numbers
    and flags that were written (sections 7.3.7 and 7.4.8 of ITU-T H.265). */
module RefPicSetRoundTrips {
  import opened Bytes
  import opened BitReaders
  import opened RefPicSetSyntax
  import opened ShortTermRefPicSets
  import opened RefPicSetChains

  // ---------------------------------------------------------------- explicit sets

  function Total(gaps: seq<Gap>): int {
    if gaps == [] then 0 else gaps[0].distance + Total(gaps[1..])
  }

  lemma {:induction false} TotalSnoc(gaps: seq<Gap>, g: Gap)
    ensures Total(gaps + [g]) == Total(gaps) + g.distance
    decreases |gaps|
  {
    if gaps == [] {
      assert [] + [g] == [g];
    } else {
      TotalSnoc(gaps[1..], g);
      assert (gaps + [g])[1..] == gaps[1..] + [g];
    }
  }

  /** Entry i is as far out as the first i + 1 gaps together. */
  lemma {:induction false} StepsTotal(gaps: seq<Gap>, sign: int, i: nat)
    requires (sign == 1 || sign == -1) && i < |gaps|
    ensures Steps(gaps, sign)[i] == Entry(if sign == 1 then Total(gaps[..i + 1]) else -Total(gaps[..i + 1]), gaps[i].used)
    decreases |gaps|
  {
    hide Total;
    var front := gaps[..|gaps| - 1];
    if i < |front| {
      StepsTotal(front, sign, i);
      assert front[..i + 1] == gaps[..i + 1];
    } else {
      TotalSnoc(front, gaps[i]);
      assert gaps[..i + 1] == front + [gaps[i]];
      if front == [] {
        TotalOfNone();
      } else {
        StepsTotal(front, sign, i - 1);
        assert front[..i] == front;
      }
    }
  }

  lemma TotalOfNone()
    ensures Total([]) == 0
  {
  }

  /** The entries that gaps on both sides stand for. */
  predicate HoldsGaps(es: seq<Entry>, negatives: seq<Gap>, positives: seq<Gap>) {
    && |es| == |negatives| + |positives|
    && (forall i | 0 <= i < |negatives| :: es[i] == Entry(-Total(negatives[..i + 1]), negatives[i].used))
    && (forall i | 0 <= i < |positives| :: es[|negatives| + i] == Entry(Total(positives[..i + 1]), positives[i].used))
  }

  lemma StepsHoldGaps(negatives: seq<Gap>, positives: seq<Gap>)
    ensures HoldsGaps(Steps(negatives, -1) + Steps(positives, 1), negatives, positives)
  {
    hide Steps, Total;
    forall i | 0 <= i < |negatives|
      ensures Steps(negatives, -1)[i] == Entry(-Total(negatives[..i + 1]), negatives[i].used)
    {
      StepsTotal(negatives, -1, i);
    }
    forall i | 0 <= i < |positives|
      ensures Steps(positives, 1)[i] == Entry(Total(positives[..i + 1]), positives[i].used)
    {
      StepsTotal(positives, 1, i);
    }
  }

  /** Main result: a set written out, behind a flag of 0 unless it is the first, is read as the
      running sums of its gaps, the negative ones first. */
  lemma ExplicitSetRoundTrip(buf: seq<byte>, pos: nat, reference: Option<RefSet>, negatives: seq<Gap>, positives: seq<Gap>)
      returns (es: seq<Entry>, next: nat)
    requires AllWritable(negatives) && AllWritable(positives) && |negatives| < 16 && |positives| < 16
    requires Holds(buf, pos, (if reference.Some? then [0] else []) + ExplicitBits(negatives, positives))
    ensures pos <= 8 * |buf| && StandardSet(buf, pos, reference) == Some((RefSet(es, |negatives|), next))
    ensures HoldsGaps(es, negatives, positives)
    ensures next == pos + (if reference.Some? then 1 else 0) + |ExplicitBits(negatives, positives)|
  {
    hide Holds, ExplicitBits, ExplicitAt, DeltaAt, PicksAt, StandardPrediction, Steps, Flag, AllWritable, HoldsGaps;
    var bits := ExplicitBits(negatives, positives);
    var flag := if reference.Some? then [0] else [];
    HoldsParts(buf, pos, flag, bits);
    InsideWhenHeld(buf, pos, flag);
    if reference.Some? {
      OneBit(buf, pos, 0);
    }
    ExplicitRoundTrip(buf, pos + |flag|, negatives, positives);
    StepsHoldGaps(negatives, positives);
    es := Steps(negatives, -1) + Steps(positives, 1);
    next := pos + |flag| + |bits|;
  }

  // ---------------------------------------------------------------- predicted sets

  /** A pick as it can be written: what is used needs no second flag. */
  predicate Pickable(p: Pick) {
    p == Pick(1, true) || p == Pick(0, true) || p == Pick(0, false)
  }

  predicate AllPickable(picks: seq<Pick>) {
    forall i | 0 <= i < |picks| :: Pickable(picks[i])
  }

  function PickBits(p: Pick): seq<nat> {
    if p.used == 1 then [1] else [0] + [if p.use then 1 else 0]
  }

  function PicksBits(picks: seq<Pick>): seq<nat> {
    if picks == [] then [] else PicksBits(picks[..|picks| - 1]) + PickBits(picks[|picks| - 1])
  }

  lemma {:induction false} PicksRoundTrip(buf: seq<byte>, pos: nat, picks: seq<Pick>)
    requires AllPickable(picks) && Holds(buf, pos, PicksBits(picks))
    ensures pos <= 8 * |buf| && PicksAt(buf, pos, |picks|) == (picks, pos + |PicksBits(picks)|)
    decreases |picks|
  {
    hide Holds, Flag, BitAt;
    InsideWhenHeld(buf, pos, PicksBits(picks));
    if picks != [] {
      var front, p := picks[..|picks| - 1], picks[|picks| - 1];
      HoldsParts(buf, pos, PicksBits(front), PickBits(p));
      PicksRoundTrip(buf, pos, front);
      PickRoundTrip(buf, pos + |PicksBits(front)|, p);
      assert picks == front + [p];
    }
  }

  lemma PickRoundTrip(buf: seq<byte>, pos: nat, p: Pick)
    requires Pickable(p) && Holds(buf, pos, PickBits(p))
    ensures pos <= 8 * |buf|
    ensures var (used, p1) := Flag(buf, pos);
            && used == p.used && (used == 1 ==> p.use && p1 == pos + |PickBits(p)|)
            && (used == 0 ==> Flag(buf, p1) == (if p.use then 1 else 0, pos + |PickBits(p)|))
  {
    hide Holds, Flag, BitAt;
    InsideWhenHeld(buf, pos, PickBits(p));
    if p.used == 1 {
      OneBit(buf, pos, 1);
    } else {
      HoldsParts(buf, pos, [0], [if p.use then 1 else 0]);
      OneBit(buf, pos, 0);
      OneBit(buf, pos + 1, if p.use then 1 else 0);
    }
  }

  lemma {:induction false} EntriesOnMembers(cs: seq<Candidate>, side: Side, e: Entry)
    ensures e in EntriesOn(cs, side) <==>
              exists j :: 0 <= j < |cs| && Wanted(cs[j], side) && e == Entry(cs[j].delta, cs[j].pick.used)
    decreases |cs|
  {
    hide Wanted;
    if cs != [] {
      var front, c := cs[..|cs| - 1], cs[|cs| - 1];
      EntriesOnMembers(front, side, e);
      assert e in EntriesOn(cs, side) <==> e in EntriesOn(front, side) || (Wanted(c, side) && e == Entry(c.delta, c.pick.used));
      if e in EntriesOn(front, side) {
        var j :| 0 <= j < |front| && Wanted(front[j], side) && e == Entry(front[j].delta, front[j].pick.used);
        assert cs[j] == front[j];
      }
      if j :| 0 <= j < |cs| && Wanted(cs[j], side) && e == Entry(cs[j].delta, cs[j].pick.used) {
        assert j < |front| ==> front[j] == cs[j];
      }
    }
  }

  /** Entry j of the set before, or the difference itself behind them, is taken over as `e`. */
  predicate TakenOver(reference: seq<Entry>, picks: seq<Pick>, d: int, j: nat, e: Entry)
    requires j < |picks| == |reference| + 1
  {
    picks[j].use && e == Entry(if j < |reference| then reference[j].delta + d else d, picks[j].used)
  }

  /** A predicted set has exactly the entries taken over, without those at 0. */
  lemma PredictionMembers(reference: RefSet, picks: seq<Pick>, d: int, e: Entry)
    requires reference.negatives <= |reference.entries| && |picks| == |reference.entries| + 1
    ensures e in StandardPrediction(reference, picks, d).entries <==>
              e.delta != 0 && exists j :: 0 <= j < |picks| && TakenOver(reference.entries, picks, d, j, e)
  {
    hide EntriesOn, Reverse;
    var cs := Candidates(reference.entries, picks, d);
    var n0, n1 := StandardNegatives(cs, reference.negatives), StandardPositives(cs, reference.negatives);
    VisitsAgree(cs, reference.negatives, Negative);
    VisitsAgree(cs, reference.negatives, Positive);
    SameMembers(n0, EntriesOn(cs, Negative));
    SameMembers(n1, EntriesOn(cs, Positive));
    EntriesOnMembers(cs, Negative, e);
    EntriesOnMembers(cs, Positive, e);
    assert e in n0 + n1 <==> e in n0 || e in n1;
    OnOneSide(reference.entries, picks, d, e);
  }

  lemma OnOneSide(reference: seq<Entry>, picks: seq<Pick>, d: int, e: Entry)
    requires |picks| == |reference| + 1
    ensures var cs := Candidates(reference, picks, d);
            ((exists j :: 0 <= j < |cs| && Wanted(cs[j], Negative) && e == Entry(cs[j].delta, cs[j].pick.used))
             || (exists j :: 0 <= j < |cs| && Wanted(cs[j], Positive) && e == Entry(cs[j].delta, cs[j].pick.used)))
            <==> e.delta != 0 && exists j :: 0 <= j < |picks| && TakenOver(reference, picks, d, j, e)
  {
    var cs := Candidates(reference, picks, d);
    forall j | 0 <= j < |cs|
      ensures TakenOver(reference, picks, d, j, e) <==> cs[j].pick.use && e == Entry(cs[j].delta, cs[j].pick.used)
    {
    }
    if j :| 0 <= j < |picks| && e.delta != 0 && TakenOver(reference, picks, d, j, e) {
      assert Wanted(cs[j], if e.delta < 0 then Negative else Positive);
    }
  }

  function PredictedBits(sign: byte, m: nat, picks: seq<Pick>): seq<nat> {
    [1] + (([sign] + ExpGolomb(m)) + PicksBits(picks))
  }

  function Difference(sign: byte, m: nat): int {
    if sign == 1 then -(m + 1) else m + 1
  }

  /** Main result: a predicted set, written as a difference (sign bit 1 for a negative one, the
      magnitude less one) and the flags of each entry of the set before and of the difference
      itself, has exactly the entries that the flags select, moved by the difference, without
      those at 0; and predicted from a strictly ordered set it is strictly ordered. */
  lemma PredictedSetRoundTrip(buf: seq<byte>, pos: nat, reference: RefSet, sign: byte, m: nat, picks: seq<Pick>)
      returns (r: RefSet)
    requires reference.negatives <= |reference.entries| && |picks| == |reference.entries| + 1 && AllPickable(picks)
    requires sign <= 1 && m < 32768 && Holds(buf, pos, PredictedBits(sign, m, picks))
    ensures pos <= 8 * |buf| && StandardSet(buf, pos, Some(reference)) == Some((r, pos + |PredictedBits(sign, m, picks)|))
    ensures forall e :: e in r.entries <==>
              e.delta != 0 && exists j :: 0 <= j < |picks| && TakenOver(reference.entries, picks, Difference(sign, m), j, e)
    ensures Strict(reference.entries, reference.negatives) ==> Strict(r.entries, r.negatives)
  {
    hide Holds, ExplicitAt, DeltaAt, PicksAt, StandardPrediction, PicksBits, ExpGolomb, Flag, AllPickable, TakenOver, Strict;
    var d := Difference(sign, m);
    var head := [sign] + ExpGolomb(m);
    InsideWhenHeld(buf, pos, PredictedBits(sign, m, picks));
    HoldsParts(buf, pos, [1], head + PicksBits(picks));
    OneBit(buf, pos, 1);
    HoldsParts(buf, pos + 1, head, PicksBits(picks));
    DeltaRoundTrip(buf, pos + 1, sign, m);
    PicksRoundTrip(buf, pos + 1 + |head|, picks);
    r := StandardPrediction(reference, picks, d);
    forall e
      ensures e in r.entries <==> e.delta != 0 && exists j :: 0 <= j < |picks| && TakenOver(reference.entries, picks, d, j, e)
    {
      PredictionMembers(reference, picks, d, e);
    }
    if Strict(reference.entries, reference.negatives) {
      PredictionStrict(reference, picks, d);
    }
  }

  lemma PredictionStrict(reference: RefSet, picks: seq<Pick>, d: int)
    requires Strict(reference.entries, reference.negatives) && |picks| == |reference.entries| + 1
    ensures var r := StandardPrediction(reference, picks, d); Strict(r.entries, r.negatives)
  {
    hide EntriesOn, Candidates, StandardNegatives, StandardPositives;
    StandardSides(reference.entries, reference.negatives, picks, d);
  }
}
