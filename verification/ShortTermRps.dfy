/** Short-term reference picture sets of an HEVC sequence parameter set:
    `hevcDecodeShortTermRps` and the loop over the sets, against the derivation of
    section 7.4.8 of ITU-T H.265. */
module ShortTermRefPicSets {
  import opened Bytes
  import opened BitReaders
  import opened RefPicSetSyntax

  const MAX_SETS := 64
  const ENTRIES := 32

  /** A picture order count difference, and whether the current picture refers to it. */
  datatype Entry = Entry(delta: int, used: byte)

  // ---------------------------------------------------------------- orders and counts

  predicate Ascending(s: seq<Entry>) {
    forall i, j | 0 <= i < j < |s| :: s[i].delta <= s[j].delta
  }

  function CountNegative(s: seq<Entry>): (n: nat)
    ensures n <= |s|
  {
    if s == [] then 0 else CountNegative(s[..|s| - 1]) + if s[|s| - 1].delta < 0 then 1 else 0
  }

  /** The layout of a decoded set: the negative differences, nearest first, then the others,
      nearest first. */
  predicate Arranged(s: seq<Entry>, negatives: nat) {
    && negatives <= |s|
    && (forall i | 0 <= i < negatives :: s[i].delta < 0)
    && (forall i | negatives <= i < |s| :: s[i].delta >= 0)
    && (forall i, j | 0 <= i < j < negatives :: s[i].delta >= s[j].delta)
    && (forall i, j | negatives <= i < j < |s| :: s[i].delta <= s[j].delta)
  }

  /** The same without ties and without 0, as section 7.4.8 has it. */
  predicate Strict(s: seq<Entry>, negatives: nat) {
    && negatives <= |s|
    && (forall i | 0 <= i < negatives :: s[i].delta < 0)
    && (forall i | negatives <= i < |s| :: s[i].delta > 0)
    && (forall i, j | 0 <= i < j < negatives :: s[i].delta > s[j].delta)
    && (forall i, j | negatives <= i < j < |s| :: s[i].delta < s[j].delta)
  }

  predicate Within(s: seq<Entry>, bound: nat) {
    forall e | e in s :: -(bound as int) <= e.delta <= bound
  }

  function Inserted(s: seq<Entry>, x: Entry, p: nat): seq<Entry>
    requires p <= |s|
  {
    s[..p] + [x] + s[p..]
  }

  lemma {:induction false} CountConcat(a: seq<Entry>, b: seq<Entry>)
    ensures CountNegative(a + b) == CountNegative(a) + CountNegative(b)
    decreases |b|
  {
    if b == [] {
      assert a + b == a;
    } else {
      CountConcat(a, b[..|b| - 1]);
      assert (a + b)[..|a + b| - 1] == a + b[..|b| - 1];
    }
  }

  lemma CountInserted(s: seq<Entry>, x: Entry, p: nat)
    requires p <= |s|
    ensures CountNegative(Inserted(s, x, p)) == CountNegative(s + [x])
    ensures multiset(Inserted(s, x, p)) == multiset(s + [x])
  {
    hide CountNegative;
    assert s == s[..p] + s[p..];
    CountConcat(s[..p], s[p..]);
    CountConcat(s[..p] + [x], s[p..]);
    CountConcat(s[..p], [x]);
    CountConcat(s, [x]);
  }

  /** In an ascending sequence the negative entries are the first ones. */
  lemma {:induction false} NegativesFirst(s: seq<Entry>)
    requires Ascending(s)
    ensures forall i | 0 <= i < |s| :: s[i].delta < 0 <==> i < CountNegative(s)
  {
    if s != [] {
      var front := s[..|s| - 1];
      NegativesFirst(front);
      assert forall i | 0 <= i < |front| :: s[i] == front[i];
      if s[|s| - 1].delta < 0 {
        assert forall i | 0 <= i < |front| :: front[i].delta < 0;
        assert |front| > 0 ==> front[|front| - 1].delta < 0;
      }
    }
  }

  function Flipped(s: seq<Entry>, n: nat): (r: seq<Entry>)
    requires n <= |s|
    ensures |r| == |s|
  {
    seq(|s|, i requires 0 <= i < |s| => if i < n then s[n - 1 - i] else s[i])
  }

  lemma {:induction false} FlippedContents(s: seq<Entry>, n: nat)
    requires n <= |s|
    ensures multiset(Flipped(s, n)) == multiset(s)
    decreases n
  {
    if n == 0 {
      assert Flipped(s, 0) == s;
    } else {
      var t := [s[n - 1]] + s[..n - 1] + s[n..];
      assert s == s[..n - 1] + [s[n - 1]] + s[n..];
      FlippedContents(s[..n - 1] , n - 1);
      assert Flipped(s, n) == [s[n - 1]] + Flipped(s[..n - 1], n - 1) + s[n..];
    }
  }

  /** Sorting and flipping the negatives gives the layout. */
  lemma FlippedIsArranged(s: seq<Entry>)
    requires Ascending(s)
    ensures Arranged(Flipped(s, CountNegative(s)), CountNegative(s))
  {
    NegativesFirst(s);
  }

  // ---------------------------------------------------------------- the struct

  class RefPicSet {
    var numNegativePics: nat
    var numDeltaPocs: nat
    const deltaPoc: array<int>
    const used: array<byte>

    constructor ()
      ensures fresh(deltaPoc) && fresh(used) && Sized() && numDeltaPocs == numNegativePics == 0
    {
      deltaPoc := new int[ENTRIES];
      used := new byte[ENTRIES];
      numNegativePics, numDeltaPocs := 0, 0;
    }

    ghost predicate Sized() {
      deltaPoc.Length == ENTRIES && used.Length == ENTRIES
    }

    /** The first `n` slots of the two arrays, paired up. */
    ghost function Slots(n: nat): (s: seq<Entry>)
      requires Sized() && n <= ENTRIES
      reads deltaPoc, used
      ensures |s| == n
    {
      seq(n, i requires 0 <= i < n reads deltaPoc, used => Entry(deltaPoc[i], used[i]))
    }

    ghost function Entries(): (s: seq<Entry>)
      requires Sized() && numDeltaPocs <= ENTRIES
      reads this, deltaPoc, used
    {
      Slots(numDeltaPocs)
    }

    /** What every decoded set satisfies; `index` is its place in the parameter set. */
    ghost predicate Decoded(index: nat)
      reads this, deltaPoc, used
    {
      && Sized()
      && numDeltaPocs <= 31
      && Arranged(Entries(), numNegativePics)
      && Within(Entries(), 32768 * (15 + index))
    }

    method Put(i: nat, e: Entry, ghost n: nat)
      requires Sized() && i < n <= ENTRIES
      modifies deltaPoc, used
      ensures Slots(n) == old(Slots(n))[i := e]
    {
      deltaPoc[i] := e.delta;
      used[i] := e.used;
    }

    /** Write slot `n`, behind the first `n`. */
    method Append(n: nat, e: Entry)
      requires Sized() && n < ENTRIES
      modifies deltaPoc, used
      ensures Slots(n) == old(Slots(n)) && Slots(n + 1) == old(Slots(n)) + [e]
    {
      deltaPoc[n] := e.delta;
      used[n] := e.used;
    }

    /** Insertion sort; the inner loop always runs down to the first entry. */
    method SortAscending()
      requires Sized() && numDeltaPocs <= ENTRIES
      modifies deltaPoc, used
      ensures Ascending(Entries())
      ensures multiset(Entries()) == multiset(old(Entries()))
      ensures CountNegative(Entries()) == CountNegative(old(Entries()))
    {
      if numDeltaPocs == 0 {
        return;
      }
      var i := 1;
      while i < numDeltaPocs
        invariant 1 <= i <= numDeltaPocs
        invariant Ascending(Entries()[..i])
        invariant multiset(Entries()) == multiset(old(Entries()))
        invariant CountNegative(Entries()) == CountNegative(old(Entries()))
      {
        SortInto(i);
        i := i + 1;
      }
      assert Entries()[..i] == Entries();
    }

    /** One round of the outer loop: entry `i` goes to its place among those before it. */
    method SortInto(i: nat)
      requires Sized() && 1 <= i < numDeltaPocs <= ENTRIES && Ascending(Entries()[..i])
      modifies deltaPoc, used
      ensures Ascending(Entries()[..i + 1])
      ensures multiset(Entries()) == multiset(old(Entries()))
      ensures CountNegative(Entries()) == CountNegative(old(Entries()))
    {
      hide CountNegative, Ascending;
      var n := numDeltaPocs;
      var x := Entry(deltaPoc[i], used[i]);
      ghost var before, rest := Slots(n)[..i], Slots(n)[i + 1..];
      ghost var p := i;
      assert Slots(n) == Inserted(before, x, i) + rest;
      var k := i - 1;
      while k >= 0
        invariant -1 <= k < p <= i
        invariant Slots(n) == Inserted(before, x, p) + rest
        invariant p == k + 1 || before[p - 1].delta <= x.delta
        invariant forall q | p <= q < i :: x.delta < before[q].delta
      {
        ghost var now := Slots(n);
        assert now[k] == before[k];
        LowerDown(before, x, p, k);
        var tmp := Entry(deltaPoc[k], used[k]);
        if x.delta < tmp.delta {
          Put(k + 1, tmp, n);
          Put(k, x, n);
          SwapDown(before, x, k, rest);
          p := k;
        }
        k := k - 1;
      }
      AscendingInserted(before, x, p);
      assert Slots(n)[..i + 1] == Inserted(before, x, p);
      Rearranged(before, x, p, rest);
      assert old(Slots(n)) == before + [x] + rest;
    }

    /** Reverse the order of the first `numNegativePics` entries. */
    method FlipNegatives()
      requires Sized() && numNegativePics <= numDeltaPocs <= ENTRIES
      modifies deltaPoc, used
      ensures Entries() == Flipped(old(Entries()), numNegativePics)
    {
      var n := numDeltaPocs;
      ghost var was := Slots(n);
      if numNegativePics / 2 == 0 {
        assert Flipped(was, numNegativePics) == was;
        return;
      }
      var k := numNegativePics - 1;
      var i := 0;
      assert was == PartFlipped(was, numNegativePics, 0);
      while i < numNegativePics / 2
        invariant 0 <= i <= numNegativePics / 2 && k == numNegativePics - 1 - i
        invariant Slots(n) == PartFlipped(was, numNegativePics, i)
      {
        FlipPair(was, numNegativePics, i);
        assert Slots(n)[i] == was[i] && Slots(n)[k] == was[k];
        var a, b := Entry(deltaPoc[i], used[i]), Entry(deltaPoc[k], used[k]);
        Put(i, b, n);
        Put(k, a, n);
        k := k - 1;
        i := i + 1;
      }
      assert PartFlipped(was, numNegativePics, i) == Flipped(was, numNegativePics);
    }
  }

  /** `i` pairs have changed places. */
  function PartFlipped(s: seq<Entry>, n: nat, i: nat): (r: seq<Entry>)
    requires n <= |s| && i <= n / 2
    ensures |r| == |s|
  {
    seq(|s|, j requires 0 <= j < |s| => if j < i || n - i <= j < n then s[n - 1 - j] else s[j])
  }

  lemma FlipPair(s: seq<Entry>, n: nat, i: nat)
    requires n <= |s| && i < n / 2
    ensures PartFlipped(s, n, i)[i := s[n - 1 - i]][n - 1 - i := s[i]] == PartFlipped(s, n, i + 1)
  {
  }

  /** Once the new entry has found its place no entry further down is greater. */
  lemma LowerDown(before: seq<Entry>, x: Entry, p: nat, k: nat)
    requires Ascending(before) && k < p <= |before| && (p == k + 1 || before[p - 1].delta <= x.delta)
    ensures p == k + 1 || before[k].delta <= x.delta
  {
  }

  lemma SwapDown(before: seq<Entry>, x: Entry, k: nat, rest: seq<Entry>)
    requires k < |before|
    ensures (Inserted(before, x, k + 1) + rest)[k + 1 := before[k]][k := x] == Inserted(before, x, k) + rest
  {
  }

  lemma AscendingInserted(s: seq<Entry>, x: Entry, p: nat)
    requires Ascending(s) && p <= |s|
    requires p == 0 || s[p - 1].delta <= x.delta
    requires forall q | p <= q < |s| :: x.delta < s[q].delta
    ensures Ascending(Inserted(s, x, p))
  {
  }

  lemma Rearranged(s: seq<Entry>, x: Entry, p: nat, rest: seq<Entry>)
    requires p <= |s|
    ensures multiset(Inserted(s, x, p) + rest) == multiset(s + [x] + rest)
    ensures CountNegative(Inserted(s, x, p) + rest) == CountNegative(s + [x] + rest)
  {
    CountInserted(s, x, p);
    CountConcat(Inserted(s, x, p), rest);
    CountConcat(s + [x], rest);
  }

  // ---------------------------------------------------------------- section 7.4.8

  /** The two flags of one entry of the reference set, `use` being inferred when used. */
  datatype Pick = Pick(used: byte, use: bool)

  datatype Candidate = Candidate(delta: int, pick: Pick)

  datatype Side = Negative | Positive | Any

  predicate Wanted(c: Candidate, side: Side) {
    c.pick.use && match side
      case Negative => c.delta < 0
      case Positive => c.delta > 0
      case Any => true
  }

  /** The entries of a set of candidates on one side of 0, in order. */
  function EntriesOn(cs: seq<Candidate>, side: Side): seq<Entry> {
    if cs == [] then [] else
    var c := cs[|cs| - 1];
    EntriesOn(cs[..|cs| - 1], side) + if Wanted(c, side) then [Entry(c.delta, c.pick.used)] else []
  }

  /** Each entry of the reference set, moved by `d`, and at the end `d` itself. */
  function Candidates(reference: seq<Entry>, picks: seq<Pick>, d: int): (cs: seq<Candidate>)
    requires |picks| <= |reference| + 1
    ensures |cs| == |picks|
  {
    seq(|picks|, j requires 0 <= j < |picks| =>
      Candidate(d + if j < |reference| then reference[j].delta else 0, picks[j]))
  }

  function Reverse(cs: seq<Candidate>): (r: seq<Candidate>)
    ensures |r| == |cs|
  {
    seq(|cs|, j requires 0 <= j < |cs| => cs[|cs| - 1 - j])
  }

  /** Equations 7-61 and 7-62: the negative pictures are found by going through the positive
      ones backwards, the difference itself and the negative ones; the positive ones the
      other way round. A difference of 0 belongs to neither. */
  function StandardNegatives(cs: seq<Candidate>, negatives: nat): seq<Entry>
    requires negatives < |cs|
  {
    var n := |cs| - 1;
    EntriesOn(Reverse(cs[negatives..n]) + [cs[n]] + cs[..negatives], Negative)
  }

  function StandardPositives(cs: seq<Candidate>, negatives: nat): seq<Entry>
    requires negatives < |cs|
  {
    var n := |cs| - 1;
    EntriesOn(Reverse(cs[..negatives]) + [cs[n]] + cs[negatives..n], Positive)
  }

  ghost predicate ZeroUsed(cs: seq<Candidate>) {
    exists j :: 0 <= j < |cs| && cs[j].pick.use && cs[j].delta == 0
  }

  lemma {:induction false} KeepConcat(a: seq<Candidate>, b: seq<Candidate>, side: Side)
    ensures EntriesOn(a + b, side) == EntriesOn(a, side) + EntriesOn(b, side)
    decreases |b|
  {
    if b == [] {
      assert a + b == a;
    } else {
      KeepConcat(a, b[..|b| - 1], side);
      assert (a + b)[..|a + b| - 1] == a + b[..|b| - 1];
    }
  }

  lemma {:induction false} KeepReverse(a: seq<Candidate>, side: Side)
    ensures multiset(EntriesOn(Reverse(a), side)) == multiset(EntriesOn(a, side))
    decreases |a|
  {
    if a != [] {
      var front, last := a[..|a| - 1], a[|a| - 1];
      KeepReverse(front, side);
      assert Reverse(a) == [last] + Reverse(front);
      KeepConcat([last], Reverse(front), side);
      KeepConcat(front, [last], side);
      assert a == front + [last];
    } else {
      assert Reverse(a) == a;
    }
  }

  /** Without a 0 the two sides together are all of them; with one they are fewer. */
  lemma {:induction false} KeepSides(cs: seq<Candidate>)
    ensures !ZeroUsed(cs) ==> multiset(EntriesOn(cs, Any)) == multiset(EntriesOn(cs, Negative)) + multiset(EntriesOn(cs, Positive))
    ensures ZeroUsed(cs) ==> |EntriesOn(cs, Any)| > |EntriesOn(cs, Negative)| + |EntriesOn(cs, Positive)|
    ensures |EntriesOn(cs, Any)| >= |EntriesOn(cs, Negative)| + |EntriesOn(cs, Positive)|
    decreases |cs|
  {
    hide EntriesOn, Wanted, ZeroUsed;
    if cs == [] {
      KeepNone();
    } else {
      var front, last := cs[..|cs| - 1], cs[|cs| - 1];
      KeepSides(front);
      assert cs == front + [last];
      ZeroUsedGrows(front, last);
      KeepLast(front, last, Any);
      KeepLast(front, last, Negative);
      KeepLast(front, last, Positive);
      OneSide(last);
    }
  }

  lemma KeepNone()
    ensures !ZeroUsed([]) && forall side :: EntriesOn([], side) == []
  {
  }

  lemma KeepLast(cs: seq<Candidate>, c: Candidate, side: Side)
    ensures EntriesOn(cs + [c], side) == EntriesOn(cs, side) + if Wanted(c, side) then [Entry(c.delta, c.pick.used)] else []
  {
    assert (cs + [c])[..|cs|] == cs;
  }

  /** A candidate that is kept at all is on exactly one side, unless it is 0. */
  lemma OneSide(c: Candidate)
    ensures !(Wanted(c, Negative) && Wanted(c, Positive))
    ensures Wanted(c, Any) <==> Wanted(c, Negative) || Wanted(c, Positive) || (c.pick.use && c.delta == 0)
    ensures c.pick.use && c.delta == 0 ==> !Wanted(c, Negative) && !Wanted(c, Positive)
  {
  }

  lemma ZeroUsedGrows(cs: seq<Candidate>, c: Candidate)
    ensures ZeroUsed(cs + [c]) <==> ZeroUsed(cs) || (c.pick.use && c.delta == 0)
  {
    var t := cs + [c];
    if ZeroUsed(cs) {
      var j :| 0 <= j < |cs| && cs[j].pick.use && cs[j].delta == 0;
      assert t[j] == cs[j];
    }
    assert t[|cs|] == c;
  }

  /** The order of a set: negative before positive, near before far. */
  predicate Before(a: int, b: int) {
    if a < 0 then b >= 0 || a > b else b >= 0 && a < b
  }

  predicate StrictlyOrdered(s: seq<Entry>) {
    forall i, j | 0 <= i < j < |s| :: Before(s[i].delta, s[j].delta)
  }

  predicate Increasing(cs: seq<Candidate>) {
    forall i, j | 0 <= i < j < |cs| :: cs[i].delta < cs[j].delta
  }

  predicate Decreasing(cs: seq<Candidate>) {
    forall i, j | 0 <= i < j < |cs| :: cs[i].delta > cs[j].delta
  }

  /** Going through candidates towards 0 or away from it keeps the order of one side. */
  lemma {:induction false} KeepOrdered(cs: seq<Candidate>, side: Side)
    requires (side == Negative && Decreasing(cs)) || (side == Positive && Increasing(cs))
    ensures forall e | e in EntriesOn(cs, side) ::
              if side == Negative then e.delta < 0 && e.delta >= cs[|cs| - 1].delta
              else 0 < e.delta <= cs[|cs| - 1].delta
    ensures StrictlyOrdered(EntriesOn(cs, side))
    decreases |cs|
  {
    if cs != [] {
      var front := cs[..|cs| - 1];
      KeepOrdered(front, side);
      var k := EntriesOn(front, side);
      assert forall i | 0 <= i < |k| :: k[i] in k;
      if front != [] {
        assert front[|front| - 1] == cs[|cs| - 2];
      }
    }
  }

  lemma SidesOrdered(a: seq<Entry>, b: seq<Entry>)
    requires StrictlyOrdered(a) && StrictlyOrdered(b)
    requires forall e | e in a :: e.delta < 0
    requires forall e | e in b :: e.delta > 0
    ensures StrictlyOrdered(a + b) && Strict(a + b, |a|)
  {
    assert forall i | 0 <= i < |a| :: a[i] in a;
    assert forall i | 0 <= i < |b| :: b[i] in b;
    var s := a + b;
    forall i, j | 0 <= i < j < |s|
      ensures Before(s[i].delta, s[j].delta)
    {
      if j < |a| {
        assert Before(a[i].delta, a[j].delta);
      } else if i >= |a| {
        assert Before(b[i - |a|].delta, b[j - |a|].delta);
      }
    }
    assert forall i, j | 0 <= i < j < |a| :: Before(s[i].delta, s[j].delta);
    assert forall i, j | |a| <= i < j < |s| :: Before(s[i].delta, s[j].delta);
  }

  predicate WeaklyOrdered(s: seq<Entry>) {
    forall i, j | 0 <= i < j < |s| :: s[i].delta == s[j].delta || Before(s[i].delta, s[j].delta)
  }

  lemma LastAgrees(s: seq<Entry>, t: seq<Entry>)
    requires WeaklyOrdered(s) && StrictlyOrdered(t) && multiset(s) == multiset(t) && s != [] && |s| == |t|
    ensures s[|s| - 1] == t[|t| - 1]
  {
    var n := |s| - 1;
    var a, b := s[n], t[n];
    assert a in multiset(s) && b in multiset(t);
    var i :| 0 <= i <= n && t[i] == a;
    var j :| 0 <= j <= n && s[j] == b;
    hide StrictlyOrdered, WeaklyOrdered;
    LastIsFarthest(s, t, i, j);
  }

  lemma LastIsFarthest(s: seq<Entry>, t: seq<Entry>, i: nat, j: nat)
    requires WeaklyOrdered(s) && StrictlyOrdered(t) && |s| == |t| && i < |t| && j < |s|
    requires t[i] == s[|s| - 1] && s[j] == t[|t| - 1]
    ensures s[|s| - 1] == t[|t| - 1]
  {
    var n := |s| - 1;
    assert i < n ==> Before(t[i].delta, t[n].delta);
  }

  /** An ordered rearrangement of a strictly ordered sequence is that sequence. */
  lemma {:induction false} OrderIsUnique(s: seq<Entry>, t: seq<Entry>)
    requires WeaklyOrdered(s) && StrictlyOrdered(t) && multiset(s) == multiset(t)
    ensures s == t
    decreases |s|
  {
    hide WeaklyOrdered, StrictlyOrdered;
    assert |s| == |multiset(s)| && |t| == |multiset(t)|;
    if s != [] {
      LastAgrees(s, t);
      var n := |s| - 1;
      PrefixOrdered(s, t);
      WithoutLast(s);
      WithoutLast(t);
      OrderIsUnique(s[..n], t[..n]);
      assert s == s[..n] + [s[n]] && t == t[..n] + [t[n]];
    }
  }

  lemma PrefixOrdered(s: seq<Entry>, t: seq<Entry>)
    requires WeaklyOrdered(s) && StrictlyOrdered(t) && s != [] && t != []
    ensures WeaklyOrdered(s[..|s| - 1]) && StrictlyOrdered(t[..|t| - 1])
  {
  }

  lemma WithoutLast(s: seq<Entry>)
    requires s != []
    ensures multiset(s[..|s| - 1]) == multiset(s) - multiset{s[|s| - 1]}
  {
    assert s == s[..|s| - 1] + [s[|s| - 1]];
  }

  /** The parts of the candidate list behind the two orders of visit. */
  lemma VisitsAgree(cs: seq<Candidate>, negatives: nat, side: Side)
    requires negatives < |cs|
    ensures var n := |cs| - 1;
            && multiset(EntriesOn(Reverse(cs[negatives..n]) + [cs[n]] + cs[..negatives], side)) == multiset(EntriesOn(cs, side))
            && multiset(EntriesOn(Reverse(cs[..negatives]) + [cs[n]] + cs[negatives..n], side)) == multiset(EntriesOn(cs, side))
  {
    var n := |cs| - 1;
    var a, b, c := cs[..negatives], cs[negatives..n], [cs[n]];
    assert cs == a + b + c;
    KeepShuffled(a, b, c, side);
  }

  lemma KeepShuffled(a: seq<Candidate>, b: seq<Candidate>, c: seq<Candidate>, side: Side)
    ensures multiset(EntriesOn(Reverse(b) + c + a, side)) == multiset(EntriesOn(a + b + c, side))
    ensures multiset(EntriesOn(Reverse(a) + c + b, side)) == multiset(EntriesOn(a + b + c, side))
  {
    hide EntriesOn, Reverse;
    KeepParts(a, b, c, side);
    KeepParts(Reverse(b), c, a, side);
    KeepParts(Reverse(a), c, b, side);
    KeepReverse(a, side);
    KeepReverse(b, side);
  }

  lemma KeepParts(a: seq<Candidate>, b: seq<Candidate>, c: seq<Candidate>, side: Side)
    ensures multiset(EntriesOn(a + b + c, side))
            == multiset(EntriesOn(a, side)) + multiset(EntriesOn(b, side)) + multiset(EntriesOn(c, side))
  {
    hide EntriesOn;
    KeepConcat(a + b, c, side);
    KeepConcat(a, b, side);
  }

  /** From a strict reference set both visits are monotone. */
  lemma VisitsMonotone(reference: seq<Entry>, negatives: nat, picks: seq<Pick>, d: int)
    requires Strict(reference, negatives) && |picks| == |reference| + 1
    ensures var cs := Candidates(reference, picks, d);
            var n := |cs| - 1;
            && Decreasing(Reverse(cs[negatives..n]) + [cs[n]] + cs[..negatives])
            && Increasing(Reverse(cs[..negatives]) + [cs[n]] + cs[negatives..n])
  {
    var cs := Candidates(reference, picks, d);
    var n := |cs| - 1;
    var a, b := cs[..negatives], cs[negatives..n];
    assert Decreasing(a) && forall i | 0 <= i < |a| :: a[i].delta < d;
    assert Increasing(b) && forall i | 0 <= i < |b| :: b[i].delta > d;
    hide Candidates, Strict;
    assert cs[n].delta == d by {
      LastCandidate(reference, picks, d);
    }
    AroundTheMiddle(a, b, cs[n]);
  }

  lemma LastCandidate(reference: seq<Entry>, picks: seq<Pick>, d: int)
    requires |picks| == |reference| + 1
    ensures Candidates(reference, picks, d)[|reference|].delta == d
  {
  }

  lemma AroundTheMiddle(a: seq<Candidate>, b: seq<Candidate>, c: Candidate)
    requires Decreasing(a) && forall i | 0 <= i < |a| :: a[i].delta < c.delta
    requires Increasing(b) && forall i | 0 <= i < |b| :: b[i].delta > c.delta
    ensures Decreasing(Reverse(b) + [c] + a) && Increasing(Reverse(a) + [c] + b)
  {
  }

  /** The two halves of the standard's set: in strict order, and the candidates on each side. */
  lemma StandardSides(reference: seq<Entry>, negatives: nat, picks: seq<Pick>, d: int)
    requires Strict(reference, negatives) && |picks| == |reference| + 1
    ensures var cs := Candidates(reference, picks, d);
            var n0, n1 := StandardNegatives(cs, negatives), StandardPositives(cs, negatives);
            && Strict(n0 + n1, |n0|) && StrictlyOrdered(n0 + n1)
            && multiset(n0) == multiset(EntriesOn(cs, Negative)) && multiset(n1) == multiset(EntriesOn(cs, Positive))
  {
    hide EntriesOn, Reverse, Candidates, Increasing, Decreasing, StrictlyOrdered;
    var cs := Candidates(reference, picks, d);
    var n := |cs| - 1;
    VisitsAgree(cs, negatives, Negative);
    VisitsAgree(cs, negatives, Positive);
    VisitsMonotone(reference, negatives, picks, d);
    KeepOrdered(Reverse(cs[negatives..n]) + [cs[n]] + cs[..negatives], Negative);
    KeepOrdered(Reverse(cs[..negatives]) + [cs[n]] + cs[negatives..n], Positive);
    SidesOrdered(StandardNegatives(cs, negatives), StandardPositives(cs, negatives));
  }

  /** Main result: sorting the candidates and flipping the negative ones gives the set of
      section 7.4.8 exactly when no candidate in use comes out as 0. */
  lemma PredictionIsStandardIff(reference: seq<Entry>, negatives: nat, picks: seq<Pick>, d: int, result: seq<Entry>, k: nat)
    requires Strict(reference, negatives) && |picks| == |reference| + 1
    requires Arranged(result, k)
    requires multiset(result) == multiset(EntriesOn(Candidates(reference, picks, d), Any))
    ensures var cs := Candidates(reference, picks, d);
            var n0, n1 := StandardNegatives(cs, negatives), StandardPositives(cs, negatives);
            (result == n0 + n1 && k == |n0| <==> !ZeroUsed(cs)) && Strict(n0 + n1, |n0|)
  {
    hide EntriesOn, Candidates, ZeroUsed, StandardNegatives, StandardPositives, Arranged;
    var cs := Candidates(reference, picks, d);
    var n0, n1 := StandardNegatives(cs, negatives), StandardPositives(cs, negatives);
    StandardSides(reference, negatives, picks, d);
    KeepSides(cs);
    SameSizes(result, cs, n0, n1);
    if !ZeroUsed(cs) {
      assert multiset(n0 + n1) == multiset(n0) + multiset(n1);
      ArrangedIsOrdered(result, k);
      OrderIsUnique(result, n0 + n1);
      SplitPoint(result, k, |n0|);
    }
  }

  lemma ArrangedIsOrdered(s: seq<Entry>, k: nat)
    requires Arranged(s, k)
    ensures WeaklyOrdered(s)
  {
  }

  lemma SameSizes(result: seq<Entry>, cs: seq<Candidate>, n0: seq<Entry>, n1: seq<Entry>)
    requires multiset(result) == multiset(EntriesOn(cs, Any))
    requires multiset(n0) == multiset(EntriesOn(cs, Negative)) && multiset(n1) == multiset(EntriesOn(cs, Positive))
    ensures |result| == |EntriesOn(cs, Any)| && |n0| == |EntriesOn(cs, Negative)| && |n1| == |EntriesOn(cs, Positive)|
  {
    assert |multiset(result)| == |multiset(EntriesOn(cs, Any))|;
    assert |multiset(n0)| == |multiset(EntriesOn(cs, Negative))|;
    assert |multiset(n1)| == |multiset(EntriesOn(cs, Positive))|;
  }

  lemma SplitPoint(s: seq<Entry>, k: nat, m: nat)
    requires Arranged(s, k) && Strict(s, m)
    ensures k == m
  {
    assert k < |s| ==> (s[k].delta < 0 <==> k < m);
    assert m < |s| ==> (s[m].delta < 0 <==> m < k);
  }

  // ---------------------------------------------------------------- decoding

  /** The flags of `n` entries, and where they end. */
  function PicksAt(buf: seq<byte>, pos: nat, n: nat): (r: (seq<Pick>, nat))
    requires pos <= 8 * |buf|
    ensures |r.0| == n && r.1 <= 8 * |buf|
  {
    if n == 0 then ([], pos) else
    var (ps, p) := PicksAt(buf, pos, n - 1);
    var (used, p1) := Flag(buf, p);
    if used != 0 then (ps + [Pick(used, true)], p1) else
    var (use, p2) := Flag(buf, p1);
    (ps + [Pick(0, use != 0)], p2)
  }

  lemma KeepWithin(reference: seq<Entry>, picks: seq<Pick>, d: int, bound: nat)
    requires |picks| <= |reference| + 1 && Within(reference, bound) && -MAX_DELTA <= d <= MAX_DELTA
    ensures Within(EntriesOn(Candidates(reference, picks, d), Any), bound + MAX_DELTA)
  {
    assert forall j | 0 <= j < |reference| :: reference[j] in reference;
    KeepBounded(Candidates(reference, picks, d), bound + MAX_DELTA);
  }

  lemma {:induction false} KeepBounded(cs: seq<Candidate>, bound: nat)
    requires forall j | 0 <= j < |cs| :: -(bound as int) <= cs[j].delta <= bound
    ensures Within(EntriesOn(cs, Any), bound)
    decreases |cs|
  {
    if cs != [] {
      KeepBounded(cs[..|cs| - 1], bound);
    }
  }

  lemma CandidatesGrow(reference: seq<Entry>, picks: seq<Pick>, p: Pick, d: int)
    requires |picks| <= |reference|
    ensures var cs := Candidates(reference, picks + [p], d);
            cs[..|picks|] == Candidates(reference, picks, d)
            && cs[|picks|] == Candidate(d + if |picks| < |reference| then reference[|picks|].delta else 0, p)
  {
  }

  /** `delta_rps`: sign and magnitude. A sign read behind the end of the data is 255, but
      then the magnitude is 1, so the difference stays small. */
  method ReadDeltaRps(r: BitReader) returns (ok: bool, d: int)
    requires r.Valid()
    modifies r`bitPos, r`curBitPos
    ensures r.Valid()
    ensures ok ==> -MAX_DELTA <= d <= MAX_DELTA && d != 0
    ensures match DeltaAt(r.buf, old(r.bitPos))
            case Unknown => true
            case Refused => !ok
            case Read(value, next) => ok && d == value && r.bitPos == next
  {
    hide Codenum, Unary, BitAt;
    var sign := r.GetOneBit();
    sign := Uint8(sign);
    var absDelta := r.ParseUe();
    absDelta := (absDelta + 1) % TWO_32;
    ok := 1 <= absDelta <= MAX_DELTA;
    d := (1 - 2 * sign) * absDelta;
    if ok {
      assert sign == 0 || sign == 1 || (sign == 255 && absDelta == 1);
      if sign == 0 {
        assert d == absDelta;
      } else if sign == 1 {
        assert d == -absDelta;
      }
    }
  }

  method ReadPick(r: BitReader) returns (used: byte, use: bool)
    requires r.Valid()
    modifies r`bitPos, r`curBitPos
    ensures r.Valid()
    ensures var (u, p) := Flag(r.buf, old(r.bitPos));
            var (f, p') := Flag(r.buf, p);
            if u != 0 then used == u && use && r.bitPos == p
            else used == 0 && use == (f != 0) && r.bitPos == p'
  {
    var bit := r.GetOneBit();
    used := Uint8(bit);
    use := true;
    if used == 0 {
      bit := r.GetOneBit();
      use := Uint8(bit) != 0;
    }
  }

  /** The loop over the reference set: one candidate per entry, and one for the difference
      itself; those in use fill the slots from 0 on. */
  method CollectCandidates(r: BitReader, previous: RefPicSet, rps: RefPicSet, d: int, ghost index: nat)
      returns (k: nat, k0: nat)
    requires r.Valid() && rps.Sized() && previous.Decoded(index)
    requires rps != previous && rps.deltaPoc != previous.deltaPoc && rps.used != previous.used
    modifies r`bitPos, r`curBitPos, rps.deltaPoc, rps.used
    ensures r.Valid() && previous.Decoded(index) && previous.Entries() == old(previous.Entries())
    ensures k <= previous.numDeltaPocs + 1
    ensures var (picks, end) := PicksAt(r.buf, old(r.bitPos), previous.numDeltaPocs + 1);
            && r.bitPos == end
            && rps.Slots(k) == EntriesOn(Candidates(previous.Entries(), picks, d), Any)
    ensures k0 == CountNegative(rps.Slots(k))
  {
    hide EntriesOn, Candidates, Arranged, Within, CountNegative, PicksAt, Flag;
    ghost var reference := previous.Entries();
    ghost var at := r.bitPos;
    NoPicks(r.buf, at);
    k0, k := 0, 0;
    var i := 0;
    NothingYet(rps.Slots(0), reference, d);
    while i <= previous.numDeltaPocs
      invariant 0 <= k <= i <= previous.numDeltaPocs + 1
      invariant r.Valid() && previous.Entries() == reference && previous.Decoded(index)
      invariant r.bitPos == PicksAt(r.buf, at, i).1
      invariant rps.Slots(k) == EntriesOn(Candidates(reference, PicksAt(r.buf, at, i).0, d), Any)
      invariant k0 == CountNegative(rps.Slots(k))
    {
      ghost var before, picks := rps.Slots(k), PicksAt(r.buf, at, i).0;
      var used, use := ReadPick(r);
      MorePicks(r.buf, at, i);
      var delta := d + if i < previous.numDeltaPocs then previous.deltaPoc[i] else 0;
      assert i < previous.numDeltaPocs ==> reference[i].delta == previous.deltaPoc[i];
      OneMore(reference, picks, Pick(used, use), d, before);
      rps.used[k] := used;
      assert rps.Slots(k) == before;
      if use {
        rps.Append(k, Entry(delta, used));
        k0 := k0 + if delta < 0 then 1 else 0;
        k := k + 1;
      }
      i := i + 1;
    }
  }

  lemma NoPicks(buf: seq<byte>, pos: nat)
    requires pos <= 8 * |buf|
    ensures PicksAt(buf, pos, 0) == ([], pos)
  {
  }

  lemma MorePicks(buf: seq<byte>, pos: nat, n: nat)
    requires pos <= 8 * |buf|
    ensures var (ps, p) := PicksAt(buf, pos, n);
            var (used, p1) := Flag(buf, p);
            p1 <= 8 * |buf| &&
            PicksAt(buf, pos, n + 1) == if used != 0 then (ps + [Pick(used, true)], p1)
                                        else (ps + [Pick(0, Flag(buf, p1).0 != 0)], Flag(buf, p1).1)
  {
  }

  lemma NothingYet(s: seq<Entry>, reference: seq<Entry>, d: int)
    requires s == []
    ensures s == EntriesOn(Candidates(reference, [], d), Any) && CountNegative(s) == 0
  {
  }

  lemma OneMore(reference: seq<Entry>, picks: seq<Pick>, p: Pick, d: int, kept: seq<Entry>)
    requires |picks| <= |reference| && kept == EntriesOn(Candidates(reference, picks, d), Any)
    ensures var delta := d + if |picks| < |reference| then reference[|picks|].delta else 0;
            var e := Entry(delta, p.used);
            && EntriesOn(Candidates(reference, picks + [p], d), Any) == (if p.use then kept + [e] else kept)
            && CountNegative(kept + [e]) == CountNegative(kept) + (if delta < 0 then 1 else 0)
  {
    CandidatesGrow(reference, picks, p, d);
    var delta := d + if |picks| < |reference| then reference[|picks|].delta else 0;
    assert (kept + [Entry(delta, p.used)])[..|kept|] == kept;
  }

  /** The used candidates, their flags read from `at` on. */
  function SelectedEntries(buf: seq<byte>, at: nat, reference: seq<Entry>, d: int): seq<Entry>
    requires at <= 8 * |buf|
  {
    EntriesOn(Candidates(reference, PicksAt(buf, at, |reference| + 1).0, d), Any)
  }

  /** A set is a rearrangement of them, and reading stops behind the flags. */
  ghost predicate Predicted(buf: seq<byte>, at: nat, reference: seq<Entry>, d: int, entries: seq<Entry>, next: nat)
    requires at <= 8 * |buf|
  {
    multiset(entries) == multiset(SelectedEntries(buf, at, reference, d)) && next == PicksAt(buf, at, |reference| + 1).1
  }

  /** A set predicted from the one before it. `at` is where its flags start. */
  method DecodePredicted(r: BitReader, previous: RefPicSet, rps: RefPicSet, ghost index: nat)
      returns (ok: bool, d: int, ghost at: nat)
    requires r.Valid() && rps.Sized() && index > 0 && previous.Decoded(index - 1)
    requires rps != previous && rps.deltaPoc != previous.deltaPoc && rps.used != previous.used
    modifies r`bitPos, r`curBitPos, rps`numNegativePics, rps`numDeltaPocs, rps.deltaPoc, rps.used
    ensures r.Valid()
    ensures ok ==> rps.Decoded(index)
    ensures ok ==> at <= 8 * |r.buf| && Predicted(r.buf, at, old(previous.Entries()), d, rps.Entries(), r.bitPos)
    ensures match DeltaAt(r.buf, old(r.bitPos))
            case Unknown => true
            case Refused => !ok
            case Read(value, next) => d == value && at == next <= 8 * |r.buf|
                                      && ok == (|SelectedEntries(r.buf, at, old(previous.Entries()), d)| < 32)
  {
    hide EntriesOn, Candidates, Arranged, Within, CountNegative, PicksAt, DeltaAt;
    ok, d := ReadDeltaRps(r);
    at := r.bitPos;
    if !ok {
      return;
    }
    ghost var reference := previous.Entries();
    ghost var picks := PicksAt(r.buf, at, previous.numDeltaPocs + 1).0;
    var k, k0 := CollectCandidates(r, previous, rps, d, index - 1);
    if k >= ENTRIES {
      return false, d, at;
    }
    rps.numDeltaPocs, rps.numNegativePics := k, k0;
    PredictedWithin(previous, picks, d, index);
    Arrange(rps, index);
  }

  lemma PredictedWithin(previous: RefPicSet, picks: seq<Pick>, d: int, index: nat)
    requires index > 0 && previous.Decoded(index - 1) && -MAX_DELTA <= d <= MAX_DELTA
    requires |picks| <= previous.numDeltaPocs + 1
    ensures Within(EntriesOn(Candidates(previous.Entries(), picks, d), Any), MAX_DELTA * (HEVC_MAX_REFS - 1 + index))
  {
    var bound := MAX_DELTA * (HEVC_MAX_REFS - 1 + index - 1);
    KeepWithin(previous.Entries(), picks, d, bound);
    assert bound + MAX_DELTA == MAX_DELTA * (HEVC_MAX_REFS - 1 + index);
  }

  /** Sort, then flip the negatives. */
  method Arrange(rps: RefPicSet, ghost index: nat)
    requires rps.Sized() && rps.numDeltaPocs <= 31 && rps.numNegativePics == CountNegative(rps.Entries())
    requires Within(rps.Entries(), MAX_DELTA * (HEVC_MAX_REFS - 1 + index))
    modifies rps.deltaPoc, rps.used
    ensures rps.Decoded(index) && multiset(rps.Entries()) == multiset(old(rps.Entries()))
  {
    ghost var was := rps.Entries();
    rps.SortAscending();
    ghost var sorted := rps.Entries();
    rps.FlipNegatives();
    FlippedIsArranged(sorted);
    FlippedContents(sorted, rps.numNegativePics);
    SameMembers(was, rps.Entries());
  }

  lemma SameMembers(s: seq<Entry>, t: seq<Entry>)
    requires multiset(s) == multiset(t)
    ensures forall e :: e in s <==> e in t
  {
    assert forall e :: e in s <==> e in multiset(s);
    assert forall e :: e in t <==> e in multiset(t);
  }

  /** A set written out: the gaps between neighbours, outwards from the current picture. */
  method DecodeExplicit(r: BitReader, rps: RefPicSet) returns (ok: bool)
    requires r.Valid() && rps.Sized()
    modifies r`bitPos, r`curBitPos, rps`numNegativePics, rps`numDeltaPocs, rps.deltaPoc, rps.used
    ensures r.Valid()
    ensures ok ==> rps.Decoded(0) && Strict(rps.Entries(), rps.numNegativePics)
    ensures match ExplicitAt(r.buf, old(r.bitPos))
            case Unknown => true
            case Refused => !ok
            case Read((negatives, positives), next) =>
              && ok && r.bitPos == next && rps.numNegativePics == |negatives|
              && rps.Entries() == Steps(negatives, -1) + Steps(positives, 1)
  {
    hide Strict, Arranged, Within, Outwards, Unary, Codenum, GapsAt, Steps;
    var n := r.ParseUe();
    var m := r.ParseUe();
    if !(0 <= n < HEVC_MAX_REFS && 0 <= m < HEVC_MAX_REFS) {
      return false;
    }
    rps.numNegativePics, rps.numDeltaPocs := n, n + m;
    ghost var negatives, positives: seq<Entry>;
    ok, negatives := DecodeGaps(r, rps, 0, n, -1);
    if !ok {
      return;
    }
    ok, positives := DecodeGaps(r, rps, n, m, 1);
    if ok {
      assert rps.Slots(0) == [];
      assert rps.Entries() == negatives + positives;
      BothWays(negatives, positives);
    }
  }

  /** `count` entries from `start` on, each `sign` times its gap further from 0. */
  method DecodeGaps(r: BitReader, rps: RefPicSet, start: nat, count: nat, sign: int)
      returns (ok: bool, ghost added: seq<Entry>)
    requires r.Valid() && rps.Sized() && start + count <= ENTRIES && count < HEVC_MAX_REFS && (sign == 1 || sign == -1)
    modifies r`bitPos, r`curBitPos, rps.deltaPoc, rps.used
    ensures r.Valid()
    ensures ok ==> |added| == count && rps.Slots(start + count) == old(rps.Slots(start)) + added && Outwards(added, sign)
    ensures match GapsAt(r.buf, old(r.bitPos), count)
            case Unknown => true
            case Refused => !ok
            case Read(gaps, next) => ok && r.bitPos == next && added == Steps(gaps, sign)
  {
    hide Outwards, GapsAt, GapAt, Steps;
    var prev := 0;
    var i := 0;
    added := [];
    OutwardsNone(sign);
    NoGaps(r.buf, r.bitPos, sign);
    while i < count
      invariant 0 <= i <= count && r.Valid() && |added| == i
      invariant rps.Slots(start + i) == old(rps.Slots(start)) + added
      invariant Outwards(added, sign)
      invariant prev == if i == 0 then 0 else added[i - 1].delta
      invariant Followed(r.buf, old(r.bitPos), i, r.bitPos, added, sign)
    {
      MoreGaps(r.buf, old(r.bitPos), i, r.bitPos, added, sign);
      GapsStay(r.buf, old(r.bitPos), i, i + 1);
      GapsStay(r.buf, old(r.bitPos), i + 1, count);
      var gap, used := ReadGap(r);
      if gap < 1 || gap > MAX_DELTA {
        return false, added;
      }
      var next := prev + sign * gap;
      var e := Entry(next, used);
      OutwardsMore(added, sign, gap, e);
      rps.Append(start + i, e);
      added := added + [e];
      prev := next;
      i := i + 1;
    }
    ok := true;
  }

  /** A gap and, if it is in range, its flag. */
  method ReadGap(r: BitReader) returns (gap: int, used: byte)
    requires r.Valid()
    modifies r`bitPos, r`curBitPos
    ensures r.Valid()
    ensures match GapAt(r.buf, old(r.bitPos))
            case Unknown => true
            case Refused => gap < 1 || gap > MAX_DELTA
            case Read(g, next) => gap == g.distance && used == g.used && r.bitPos == next && 1 <= gap <= MAX_DELTA
  {
    hide Codenum, Unary, BitAt;
    gap := r.ParseUe();
    gap := gap + 1;
    used := 0;
    if 1 <= gap <= MAX_DELTA {
      var bit := r.GetOneBit();
      used := Uint8(bit);
    }
  }

  /** The entries that gaps lead to, outwards from 0. */
  function Steps(gaps: seq<Gap>, sign: int): (es: seq<Entry>)
    ensures |es| == |gaps|
  {
    if gaps == [] then [] else
    var front := Steps(gaps[..|gaps| - 1], sign);
    front + [StepOut(front, gaps[|gaps| - 1], sign)]
  }

  function StepOut(es: seq<Entry>, g: Gap, sign: int): Entry {
    Entry((if es == [] then 0 else es[|es| - 1].delta) + sign * g.distance, g.used)
  }

  /** So far the entries are those of the first `i` gaps, unless a code had no value. */
  ghost predicate Followed(buf: seq<byte>, pos: nat, i: nat, next: nat, added: seq<Entry>, sign: int) {
    pos <= 8 * |buf| && next <= 8 * |buf|
    && (var g := GapsAt(buf, pos, i); g.Unknown? || (g.Read? && g.next == next && added == Steps(g.value, sign)))
  }

  lemma NoGaps(buf: seq<byte>, pos: nat, sign: int)
    requires pos <= 8 * |buf|
    ensures Followed(buf, pos, 0, pos, [], sign)
  {
  }

  lemma MoreGaps(buf: seq<byte>, pos: nat, i: nat, next: nat, added: seq<Entry>, sign: int)
    requires Followed(buf, pos, i, next, added, sign)
    ensures GapsAt(buf, pos, i).Read? ==>
              match GapAt(buf, next)
              case Unknown => GapsAt(buf, pos, i + 1) == Unknown
              case Refused => GapsAt(buf, pos, i + 1) == Refused
              case Read(g, after) => GapsAt(buf, pos, i + 1).Read? && after <= 8 * |buf|
                                     && Followed(buf, pos, i + 1, after, added + [StepOut(added, g, sign)], sign)
  {
    hide GapAt;
    var gs := GapsAt(buf, pos, i);
    if gs.Read? && GapAt(buf, next).Read? {
      var g := GapAt(buf, next).value;
      assert (gs.value + [g])[..|gs.value|] == gs.value;
    }
  }

  lemma OutwardsNone(sign: int)
    ensures Outwards([], sign)
  {
  }

  lemma OutwardsMore(s: seq<Entry>, sign: int, gap: int, e: Entry)
    requires Outwards(s, sign) && 1 <= gap <= MAX_DELTA && (sign == 1 || sign == -1)
    requires e.delta == (if s == [] then 0 else s[|s| - 1].delta) + sign * gap
    ensures Outwards(s + [e], sign)
  {
    var t := s + [e];
    var i := |s|;
    assert Distance(e.delta, sign) == gap + if s == [] then 0 else Distance(s[|s| - 1].delta, sign);
    forall j | 0 <= j < i
      ensures Distance(s[j].delta, sign) < Distance(e.delta, sign)
    {
      assert j < |s| - 1 ==> Distance(s[j].delta, sign) < Distance(s[|s| - 1].delta, sign);
    }
    assert forall j | 0 <= j < i :: t[j] == s[j];
  }

  lemma BothWays(a: seq<Entry>, b: seq<Entry>)
    requires Outwards(a, -1) && Outwards(b, 1) && |a| < HEVC_MAX_REFS && |b| < HEVC_MAX_REFS
    ensures Strict(a + b, |a|) && Arranged(a + b, |a|) && Within(a + b, MAX_DELTA * (HEVC_MAX_REFS - 1))
  {
    var s := a + b;
    assert forall i | 0 <= i < |a| :: s[i] == a[i];
    assert forall i | |a| <= i < |s| :: s[i] == b[i - |a|];
    forall i, j | 0 <= i < j < |a|
      ensures s[i].delta > s[j].delta
    {
      assert Distance(a[i].delta, -1) < Distance(a[j].delta, -1);
    }
    forall i, j | |a| <= i < j < |s|
      ensures s[i].delta < s[j].delta
    {
      assert Distance(b[i - |a|].delta, 1) < Distance(b[j - |a|].delta, 1);
    }
  }

  /** Each entry at most `MAX_DELTA` further out than the one before it, and further out. */
  predicate Outwards(s: seq<Entry>, sign: int) {
    forall i | 0 <= i < |s| ::
      && 0 < Distance(s[i].delta, sign) <= MAX_DELTA * (i + 1)
      && (forall j | 0 <= j < i :: Distance(s[j].delta, sign) < Distance(s[i].delta, sign))
  }

  function Distance(delta: int, sign: int): int {
    if sign == 1 then delta else -delta
  }

  // ---------------------------------------------------------------- all sets

  ghost predicate Separate(sets: seq<RefPicSet>) {
    && (forall i | 0 <= i < |sets| :: sets[i].Sized())
    && forall i, j | 0 <= i < |sets| && 0 <= j < |sets| && i != j ::
         sets[i] != sets[j] && sets[i].deltaPoc != sets[j].deltaPoc && sets[i].used != sets[j].used
  }

  /** What the bits at `pos` say of a set, `reference` being the one before it: refused, or
      its entries and the end of its bits; nothing when a code in it has no value. */
  ghost predicate DecodedFrom(buf: seq<byte>, pos: nat, reference: Option<seq<Entry>>, ok: bool, entries: seq<Entry>,
                              negatives: nat, next: nat)
    requires pos <= 8 * |buf|
  {
    var (predict, p) := if reference.Some? then Flag(buf, pos) else (0, pos);
    if predict == 0 then
      match ExplicitAt(buf, p)
      case Unknown => true
      case Refused => !ok
      case Read((before, behind), end) =>
        ok && next == end && negatives == |before| && entries == Steps(before, -1) + Steps(behind, 1)
    else
      match DeltaAt(buf, p)
      case Unknown => true
      case Refused => !ok
      case Read(d, at) =>
        && at <= 8 * |buf| && ok == (|SelectedEntries(buf, at, reference.value, d)| < 32)
        && (ok ==> Predicted(buf, at, reference.value, d, entries, next) && Arranged(entries, negatives))
  }

  /** `hevcDecodeShortTermRps` as the parameter set parser calls it (never for a slice header). */
  method DecodeShortTermRps(r: BitReader, sets: seq<RefPicSet>, index: nat) returns (ok: bool)
    requires r.Valid() && Separate(sets) && index < |sets|
    requires index > 0 ==> sets[index - 1].Decoded(index - 1)
    modifies r`bitPos, r`curBitPos
    modifies sets[index], sets[index].deltaPoc, sets[index].used
    ensures r.Valid() && (ok ==> sets[index].Decoded(index))
    ensures DecodedFrom(r.buf, old(r.bitPos), if index > 0 then Some(old(sets[index - 1].Entries())) else None, ok,
                        if ok then sets[index].Entries() else [], sets[index].numNegativePics, r.bitPos)
  {
    hide Strict, Arranged, Within, ExplicitAt, DeltaAt, SelectedEntries, Predicted, Steps;
    var predict := 0;
    if index > 0 {
      predict := r.GetOneBit();
    }
    if predict != 0 {
      var done, _, _ := DecodePredicted(r, sets[index - 1], sets[index], index);
      ok := done;
    } else {
      ok := DecodeExplicit(r, sets[index]);
      if ok {
        WithinMore(sets[index].Entries(), MAX_DELTA * (HEVC_MAX_REFS - 1), MAX_DELTA * (HEVC_MAX_REFS - 1 + index));
      }
    }
  }

  lemma WithinMore(s: seq<Entry>, a: nat, b: nat)
    requires Within(s, a) && a <= b
    ensures Within(s, b)
  {
  }

  /** Set `j` is what the bits from `starts[j]` to `starts[j + 1]` say, with set j - 1 in view. */
  ghost predicate DecodedAt(buf: seq<byte>, starts: seq<nat>, entries: seq<seq<Entry>>, negatives: seq<nat>, j: nat) {
    && j < |entries| == |negatives| && |entries| + 1 == |starts| && starts[j] <= 8 * |buf|
    && DecodedFrom(buf, starts[j], SetBefore(entries, j), true, entries[j], negatives[j], starts[j + 1])
  }

  /** The set behind the last of them is refused. */
  ghost predicate RefusedAt(buf: seq<byte>, starts: seq<nat>, entries: seq<seq<Entry>>) {
    && |entries| + 1 == |starts| && starts[|entries|] <= 8 * |buf|
    && DecodedFrom(buf, starts[|entries|], SetBefore(entries, |entries|), false, [], 0, 0)
  }

  function SetBefore(entries: seq<seq<Entry>>, j: nat): Option<seq<Entry>>
    requires j <= |entries|
  {
    if j > 0 then Some(entries[j - 1]) else None
  }

  ghost predicate AllDecodedAt(buf: seq<byte>, starts: seq<nat>, entries: seq<seq<Entry>>, negatives: seq<nat>) {
    && |entries| == |negatives| && |entries| + 1 == |starts|
    && forall j | 0 <= j < |entries| :: DecodedAt(buf, starts, entries, negatives, j)
  }

  lemma OneMoreDecoded(buf: seq<byte>, starts: seq<nat>, entries: seq<seq<Entry>>, negatives: seq<nat>,
                       e: seq<Entry>, n: nat, next: nat)
    requires AllDecodedAt(buf, starts, entries, negatives) && starts[|entries|] <= 8 * |buf|
    requires DecodedFrom(buf, starts[|entries|], SetBefore(entries, |entries|), true, e, n, next)
    ensures AllDecodedAt(buf, starts + [next], entries + [e], negatives + [n])
  {
    hide DecodedFrom;
    forall j | 0 <= j < |entries + [e]|
      ensures DecodedAt(buf, starts + [next], entries + [e], negatives + [n], j)
    {
      if j < |entries| {
        assert DecodedAt(buf, starts, entries, negatives, j);
      }
      assert SetBefore(entries + [e], j) == SetBefore(entries, j);
    }
  }

  lemma RefusedAnyhow(buf: seq<byte>, pos: nat, reference: Option<seq<Entry>>, n: nat, next: nat)
    requires pos <= 8 * |buf| && DecodedFrom(buf, pos, reference, false, [], n, next)
    ensures DecodedFrom(buf, pos, reference, false, [], 0, 0)
  {
    hide ExplicitAt, DeltaAt, SelectedEntries, Predicted, Steps;
  }

  /** What the sets hold, and each in its place. */
  ghost predicate Hold(sets: seq<RefPicSet>, entries: seq<seq<Entry>>, negatives: seq<nat>)
    reads sets, set i | 0 <= i < |sets| :: sets[i].deltaPoc, set i | 0 <= i < |sets| :: sets[i].used
  {
    && |entries| == |negatives| <= |sets|
    && forall i | 0 <= i < |entries| ::
         sets[i].Decoded(i) && sets[i].Entries() == entries[i] && sets[i].numNegativePics == negatives[i]
  }

  /** Main result: whatever the bits, the sets of a parameter set are decoded one after the
      other to what their bits say, each with at most 31 entries, laid out as it should be and
      in range, and no access leaves the arrays. The whole is refused when the count is out of
      range, or at the first set whose bits are refused. */
  method DecodeAllSets(r: BitReader, sets: seq<RefPicSet>)
      returns (ok: bool, count: nat, ghost starts: seq<nat>, ghost entries: seq<seq<Entry>>, ghost negatives: seq<nat>)
    requires r.Valid() && Separate(sets) && |sets| == MAX_SETS
    modifies r`bitPos, r`curBitPos
    modifies sets, set i | 0 <= i < |sets| :: sets[i].deltaPoc, set i | 0 <= i < |sets| :: sets[i].used
    ensures r.Valid() && Hold(sets, entries, negatives) && AllDecodedAt(r.buf, starts, entries, negatives)
    ensures ok ==> |entries| == count <= 64 && r.bitPos == starts[count]
    ensures Unary(r.buf, old(r.bitPos)) < 32 ==>
              var (n, next) := Codenum(r.buf, old(r.bitPos));
              if 0 <= n <= 64
              then count == n && starts[0] == next && (!ok ==> |entries| < count && RefusedAt(r.buf, starts, entries))
              else !ok && entries == []
  {
    hide DecodedFrom, Unary, Codenum, AllDecodedAt, Arranged, Within;
    var n := r.ParseUe();
    starts, entries, negatives := [r.bitPos], [], [];
    NoneDecoded(r.buf, r.bitPos);
    if n < 0 || n > MAX_SETS {
      ok, count := false, 0;
      return;
    }
    count := n;
    var i := 0;
    while i < count
      invariant 0 <= i <= count == n && r.Valid() && |entries| == i && |starts| == i + 1
      invariant Hold(sets, entries, negatives) && AllDecodedAt(r.buf, starts, entries, negatives)
      invariant starts[i] == r.bitPos
      invariant Unary(r.buf, old(r.bitPos)) < 32 ==> Codenum(r.buf, old(r.bitPos)) == (n, starts[0])
    {
      ok := DecodeNext(r, sets, i, entries, negatives);
      if !ok {
        return;
      }
      OneMoreDecoded(r.buf, starts, entries, negatives, sets[i].Entries(), sets[i].numNegativePics, r.bitPos);
      starts, entries, negatives := starts + [r.bitPos], entries + [sets[i].Entries()], negatives + [sets[i].numNegativePics];
      i := i + 1;
    }
    ok := true;
  }

  lemma NoneDecoded(buf: seq<byte>, pos: nat)
    ensures AllDecodedAt(buf, [pos], [], [])
  {
  }

  /** One round of the loop: set `i` behind those that are decoded. */
  method DecodeNext(r: BitReader, sets: seq<RefPicSet>, i: nat, ghost entries: seq<seq<Entry>>, ghost negatives: seq<nat>)
      returns (ok: bool)
    requires r.Valid() && Separate(sets) && i < |sets| && |entries| == i && Hold(sets, entries, negatives)
    modifies r`bitPos, r`curBitPos
    modifies sets[i], sets[i].deltaPoc, sets[i].used
    ensures r.Valid() && Hold(sets, entries, negatives)
    ensures ok ==> sets[i].Decoded(i)
                   && DecodedFrom(r.buf, old(r.bitPos), SetBefore(entries, i), true, sets[i].Entries(), sets[i].numNegativePics, r.bitPos)
    ensures !ok ==> DecodedFrom(r.buf, old(r.bitPos), SetBefore(entries, i), false, [], 0, 0)
  {
    hide DecodedFrom, Arranged, Within;
    ok := DecodeShortTermRps(r, sets, i);
    if !ok {
      RefusedAnyhow(r.buf, old(r.bitPos), SetBefore(entries, i), sets[i].numNegativePics, r.bitPos);
    }
    forall j | 0 <= j < i
      ensures sets[j].Decoded(j) && sets[j].Entries() == entries[j] && sets[j].numNegativePics == negatives[j]
    {
      assert sets[j] != sets[i] && sets[j].deltaPoc != sets[i].deltaPoc && sets[j].used != sets[i].used;
    }
  }
}
