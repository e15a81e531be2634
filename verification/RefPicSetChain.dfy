/** All short-term reference picture sets of a parameter set against the derivation of section
    7.4.8 of ITU-T H.265, each predicted from the one before it. */
module RefPicSetChains {
  import opened Bytes
  import opened BitReaders
  import opened RefPicSetSyntax
  import opened ShortTermRefPicSets

  /** A set as the standard has it: the differences, and how many of them are negative. */
  datatype RefSet = RefSet(entries: seq<Entry>, negatives: nat)

  /** What the bits at `pos` mean by section 7.4.8, `reference` being the set before, and where
      they end. */
  function StandardSet(buf: seq<byte>, pos: nat, reference: Option<RefSet>): (r: Option<(RefSet, nat)>)
    requires pos <= 8 * |buf|
  {
    var (predict, p) := if reference.Some? then Flag(buf, pos) else (0, pos);
    if predict == 0 then
      match ExplicitAt(buf, p)
      case Read((before, behind), next) => Some((RefSet(Steps(before, -1) + Steps(behind, 1), |before|), next))
      case _ => None
    else
      match DeltaAt(buf, p)
      case Read(d, at) =>
        if reference.value.negatives > |reference.value.entries| then None else
        var (picks, next) := PicksAt(buf, at, |reference.value.entries| + 1);
        Some((StandardPrediction(reference.value, picks, d), next))
      case _ => None
  }

  /** Equations 7-61 and 7-62. */
  function StandardPrediction(reference: RefSet, picks: seq<Pick>, d: int): RefSet
    requires reference.negatives <= |reference.entries| && |picks| == |reference.entries| + 1
  {
    var cs := Candidates(reference.entries, picks, d);
    var negatives := StandardNegatives(cs, reference.negatives);
    RefSet(negatives + StandardPositives(cs, reference.negatives), |negatives|)
  }

  /** The first `n` sets from `pos` on, and where their bits end. */
  function StandardSets(buf: seq<byte>, pos: nat, n: nat): Option<(seq<RefSet>, nat)>
  {
    if n == 0 then Some(([], pos)) else
    if StandardSets(buf, pos, n - 1) == None then None else
    var (sets, at) := StandardSets(buf, pos, n - 1).value;
    if at > 8 * |buf| then None else
    var next := StandardSet(buf, at, if sets == [] then None else Some(sets[|sets| - 1]));
    if next == None then None else Some((sets + [next.value.0], next.value.1))
  }

  /** The set at `pos` is predicted, and one of the candidates in use has the difference 0. */
  ghost predicate KeepsZero(buf: seq<byte>, pos: nat, reference: Option<seq<Entry>>)
    requires pos <= 8 * |buf|
  {
    reference.Some? &&
    var (predict, p) := Flag(buf, pos);
    predict != 0 &&
    match DeltaAt(buf, p)
    case Read(d, at) => ZeroUsed(Candidates(reference.value, PicksAt(buf, at, |reference.value| + 1).0, d))
    case _ => false
  }

  /** No code of the set has 32 or more leading zeros. */
  predicate HasValue(buf: seq<byte>, pos: nat, reference: Option<seq<Entry>>)
    requires pos <= 8 * |buf|
  {
    var (predict, p) := if reference.Some? then Flag(buf, pos) else (0, pos);
    if predict == 0 then ExplicitAt(buf, p) != Unknown else DeltaAt(buf, p) != Unknown
  }

  // ---------------------------------------------------------------- explicit sets are strict

  predicate InRange(gaps: seq<Gap>) {
    forall i | 0 <= i < |gaps| :: 1 <= gaps[i].distance <= MAX_DELTA
  }

  lemma {:induction false} GapsInRange(buf: seq<byte>, pos: nat, n: nat)
    requires pos <= 8 * |buf|
    ensures GapsAt(buf, pos, n).Read? ==> InRange(GapsAt(buf, pos, n).value)
    decreases n
  {
    hide Unary, Codenum, Flag;
    if n > 0 {
      GapsInRange(buf, pos, n - 1);
    }
  }

  lemma {:induction false} StepsOutwards(gaps: seq<Gap>, sign: int)
    requires InRange(gaps) && (sign == 1 || sign == -1)
    ensures Outwards(Steps(gaps, sign), sign)
    decreases |gaps|
  {
    hide Outwards;
    if gaps == [] {
      OutwardsNone(sign);
    } else {
      var front, g := gaps[..|gaps| - 1], gaps[|gaps| - 1];
      StepsOutwards(front, sign);
      OutwardsMore(Steps(front, sign), sign, g.distance, StepOut(Steps(front, sign), g, sign));
    }
  }

  lemma ExplicitIsStrict(buf: seq<byte>, pos: nat)
    requires pos <= 8 * |buf| && ExplicitAt(buf, pos).Read?
    ensures var (before, behind) := ExplicitAt(buf, pos).value;
            Strict(Steps(before, -1) + Steps(behind, 1), |before|)
  {
    hide Steps, Strict, Outwards, GapsAt, InRange, Unary, Codenum;
    var n, p := Codenum(buf, pos).0, Codenum(buf, pos).1;
    CodenumInside(buf, pos);
    var m, q := Codenum(buf, p).0, Codenum(buf, p).1;
    CodenumInside(buf, p);
    GapsInRange(buf, q, n);
    GapsInRange(buf, GapsAt(buf, q, n).next, m);
    var (before, behind) := ExplicitAt(buf, pos).value;
    StepsOutwards(before, -1);
    StepsOutwards(behind, 1);
    BothWays(Steps(before, -1), Steps(behind, 1));
  }

  // ---------------------------------------------------------------- one set

  /** Behind a strict set, a decoded one is the standard's if and only if it keeps no 0, and then
      it is strict itself. */
  lemma OneSetIff(buf: seq<byte>, pos: nat, reference: Option<RefSet>, entries: seq<Entry>, negatives: nat, next: nat)
    requires pos <= 8 * |buf| && (reference.Some? ==> Strict(reference.value.entries, reference.value.negatives))
    requires DecodedFrom(buf, pos, EntriesOf(reference), true, entries, negatives, next) && HasValue(buf, pos, EntriesOf(reference))
    ensures StandardSet(buf, pos, reference) == Some((RefSet(entries, negatives), next)) <==> !KeepsZero(buf, pos, EntriesOf(reference))
    ensures !KeepsZero(buf, pos, EntriesOf(reference)) ==> Strict(entries, negatives)
    ensures KeepsZero(buf, pos, EntriesOf(reference)) && StandardSet(buf, pos, reference).Some? ==>
              StandardSet(buf, pos, reference).value.0 != RefSet(entries, negatives)
  {
    hide ExplicitAt, DeltaAt, PicksAt, Candidates, ZeroUsed, Steps, StandardNegatives, StandardPositives, Arranged, EntriesOn, Flag;
    var (predict, p) := if reference.Some? then Flag(buf, pos) else (0, pos);
    if predict == 0 {
      ExplicitIsStrict(buf, p);
    } else {
      var d, at := DeltaAt(buf, p).value, DeltaAt(buf, p).next;
      var ref := reference.value;
      PredictionIsStandardIff(ref.entries, ref.negatives, PicksAt(buf, at, |ref.entries| + 1).0, d, entries, negatives);
    }
  }

  function EntriesOf(s: Option<RefSet>): Option<seq<Entry>> {
    if s.Some? then Some(s.value.entries) else None
  }

  // ---------------------------------------------------------------- all sets

  function RefSets(entries: seq<seq<Entry>>, negatives: seq<nat>, n: nat): (r: seq<RefSet>)
    requires |entries| == |negatives| && n <= |entries|
    ensures |r| == n
  {
    seq(n, i requires 0 <= i < n => RefSet(entries[i], negatives[i]))
  }

  ghost predicate NoZero(buf: seq<byte>, starts: seq<nat>, entries: seq<seq<Entry>>, n: nat)
    requires n <= |entries| < |starts| && forall j | 0 <= j < n :: starts[j] <= 8 * |buf|
  {
    forall j | 0 <= j < n :: !KeepsZero(buf, starts[j], SetBefore(entries, j))
  }

  lemma {:induction false} ChainIff(buf: seq<byte>, starts: seq<nat>, entries: seq<seq<Entry>>, negatives: seq<nat>, n: nat)
    requires AllDecodedAt(buf, starts, entries, negatives) && n <= |entries|
    requires forall j | 0 <= j < |entries| :: starts[j] <= 8 * |buf| && HasValue(buf, starts[j], SetBefore(entries, j))
    ensures NoZero(buf, starts, entries, n) ==> StandardSets(buf, starts[0], n) == Some((RefSets(entries, negatives, n), starts[n]))
    ensures !NoZero(buf, starts, entries, n) && StandardSets(buf, starts[0], n).Some? ==>
              StandardSets(buf, starts[0], n).value.0 != RefSets(entries, negatives, n)
    ensures NoZero(buf, starts, entries, n) ==> forall j | 0 <= j < n :: Strict(entries[j], negatives[j])
    decreases n
  {
    hide StandardSet, KeepsZero, HasValue, DecodedFrom, Strict;
    if n > 0 {
      var j := n - 1;
      ChainIff(buf, starts, entries, negatives, j);
      assert DecodedAt(buf, starts, entries, negatives, j);
      var sets := RefSets(entries, negatives, j);
      var reference := if sets == [] then None else Some(sets[j - 1]);
      assert EntriesOf(reference) == SetBefore(entries, j);
      assert RefSets(entries, negatives, n) == sets + [RefSet(entries[j], negatives[j])];
      if NoZero(buf, starts, entries, j) {
        OneSetIff(buf, starts[j], reference, entries[j], negatives[j], starts[n]);
      }
      ChainEnds(buf, starts[0], n, sets, RefSet(entries[j], negatives[j]));
      assert (sets + [RefSet(entries[j], negatives[j])])[j] == RefSet(entries[j], negatives[j]);
    }
  }

  /** The standard's first `n` sets begin with its first n - 1. */
  lemma ChainEnds(buf: seq<byte>, pos: nat, n: nat, sets: seq<RefSet>, last: RefSet)
    requires n > 0
    ensures StandardSets(buf, pos, n).Some? && StandardSets(buf, pos, n).value.0 == sets + [last] ==>
              StandardSets(buf, pos, n - 1).Some? && StandardSets(buf, pos, n - 1).value.0 == sets
    ensures StandardSets(buf, pos, n).Some? && StandardSets(buf, pos, n - 1).value.0 == sets ==>
              var (before, at) := StandardSets(buf, pos, n - 1).value;
              at <= 8 * |buf|
              && (var next := StandardSet(buf, at, if sets == [] then None else Some(sets[|sets| - 1]));
                  next.Some? && StandardSets(buf, pos, n).value == (sets + [next.value.0], next.value.1))
  {
    hide StandardSet;
    if StandardSets(buf, pos, n).Some? {
      var (before, at) := StandardSets(buf, pos, n - 1).value;
      var s := StandardSets(buf, pos, n).value.0;
      assert s[..|s| - 1] == before;
      assert (sets + [last])[..|sets|] == sets;
    }
  }

  /** Main result: the sets that a parameter set is decoded to, from the first bit to the last,
      are those of section 7.4.8 if and only if none of the predicted ones has a candidate in
      use with the difference 0; and then every set is in strict order. */
  lemma AllSetsStandardIff(buf: seq<byte>, starts: seq<nat>, entries: seq<seq<Entry>>, negatives: seq<nat>)
    requires AllDecodedAt(buf, starts, entries, negatives)
    requires forall j | 0 <= j < |entries| :: starts[j] <= 8 * |buf| && HasValue(buf, starts[j], SetBefore(entries, j))
    ensures StandardSets(buf, starts[0], |entries|) == Some((RefSets(entries, negatives, |entries|), starts[|entries|]))
            <==> forall j | 0 <= j < |entries| :: !KeepsZero(buf, starts[j], SetBefore(entries, j))
    ensures (forall j | 0 <= j < |entries| :: !KeepsZero(buf, starts[j], SetBefore(entries, j))) ==>
              forall j | 0 <= j < |entries| :: Strict(entries[j], negatives[j])
  {
    hide KeepsZero, Strict;
    ChainIff(buf, starts, entries, negatives, |entries|);
  }
}
