/** `deEmulationPrevention` of `SPSParser.c` against section 7.3.1 of ITU-T H.264. */
module EmulationPrevention {
  import opened Bytes

  // ---------------------------------------------------------------- the standard

  /** Section 7.3.1: a 03 that follows 00 00 is left out, and the search for the next one
      starts behind it. */
  function Standard(s: seq<byte>): seq<byte> {
    if |s| >= 3 && s[0] == 0 && s[1] == 0 && s[2] == 3 then [0, 0] + Standard(s[3..])
    else if s == [] then []
    else [s[0]] + Standard(s[1..])
  }

  /** Section 7.4.1: a 03 is put between 00 00 and a byte below 04, or the end. `zeros` is
      the number of zero bytes, up to two, just written. */
  function Escape(r: seq<byte>, zeros: nat): seq<byte> {
    if r == [] then if zeros >= 2 then [3] else []
    else if zeros >= 2 && r[0] <= 3 then [3, r[0]] + Escape(r[1..], if r[0] == 0 then 1 else 0)
    else [r[0]] + Escape(r[1..], if r[0] == 0 then zeros + 1 else 0)
  }

  // ---------------------------------------------------------------- the code, in one pass

  predicate EndsInZeros(kept: seq<byte>) {
    |kept| >= 2 && kept[|kept| - 2] == 0 && kept[|kept| - 1] == 0
  }

  /** A 03 behind two kept zeros is dropped, and the byte behind a dropped one is kept unseen. */
  function Scan(kept: seq<byte>, rest: seq<byte>): seq<byte>
    decreases |rest|
  {
    if rest == [] then kept
    else if !(EndsInZeros(kept) && rest[0] == 3) then Scan(kept + [rest[0]], rest[1..])
    else if |rest| == 1 then kept
    else Scan(kept + [rest[1]], rest[2..])
  }

  /** The copy after the windows before `i` have been looked at: `size` bytes are real, the
      first i + 2 of them kept for good; what is behind them is all the last source byte. */
  ghost predicate Scanning(source: seq<byte>, a: seq<byte>, size: nat, i: nat) {
    var n := |source|;
    && |a| == n >= 2
    && 2 <= size <= n
    && (forall k | size <= k < n :: a[k] == source[n - 1])
    && a[n - 1] == source[n - 1]
    && if i + 2 <= size then a[size - 1] == source[n - 1] && Scan(a[..i + 2], a[i + 2..size]) == Scan([], source)
       else a[..size] == Scan([], source)
  }

  predicate Match(a: seq<byte>, i: nat)
    requires i + 2 < |a|
  {
    a[i] == 0 && a[i + 1] == 0 && a[i + 2] == 3
  }

  function Removed(a: seq<byte>, at: nat): (r: seq<byte>)
    requires at < |a|
    ensures |r| == |a|
  {
    a[..at] + a[at + 1..] + [a[|a| - 1]]
  }

  /** The stale tail never matches: a match lies in the real bytes. */
  lemma MatchIsReal(source: seq<byte>, a: seq<byte>, size: nat, i: nat)
    requires i + 2 < |source| && Scanning(source, a, size, i) && Match(a, i)
    ensures i + 2 < size
  {
  }

  lemma StepKeep(source: seq<byte>, a: seq<byte>, size: nat, i: nat)
    requires i + 2 < |source| && Scanning(source, a, size, i) && !Match(a, i)
    ensures Scanning(source, a, size, i + 1)
  {
    if i + 2 < size {
      var kept, rest := a[..i + 2], a[i + 2..size];
      assert a[..i + 3] == kept + [rest[0]] && a[i + 3..size] == rest[1..];
      assert EndsInZeros(kept) <==> a[i] == 0 && a[i + 1] == 0;
    }
  }

  lemma StepDrop(source: seq<byte>, a: seq<byte>, size: nat, i: nat)
    requires i + 2 < |source| && Scanning(source, a, size, i) && Match(a, i)
    ensures size > 2 && Scanning(source, Removed(a, i + 2), size - 1, i + 1)
  {
    MatchIsReal(source, a, size, i);
    var b := Removed(a, i + 2);
    var kept, rest := a[..i + 2], a[i + 2..size];
    assert EndsInZeros(kept) && rest[0] == 3;
    if |rest| > 1 {
      assert b[..i + 3] == kept + [rest[1]] && b[i + 3..size - 1] == rest[2..];
    } else {
      assert b[..size - 1] == kept;
    }
  }

  /** The loop as the source runs it: on a copy, in place, with the bound fixed at the start.
      Each removal moves the tail down one byte and leaves the old last byte behind it. */
  method DeEmulationPrevention(source: seq<byte>) returns (buf: array<byte>, bufSize: nat, totalBit: nat)
    ensures fresh(buf) && bufSize <= buf.Length == |source|
    ensures buf[..bufSize] == Scan([], source)
    ensures totalBit == 8 * bufSize
  {
    hide Scan, Scanning;
    buf := new byte[|source|](i requires 0 <= i < |source| => source[i]);
    var n := buf.Length;
    bufSize := n;
    assert buf[..] == source;
    if n < 2 {
      ScanNoTwo(source);
    } else {
      ScanTwo(source);
    }
    var i := 0;
    while i < n - 2
      invariant 0 <= i && (i <= n - 2 || n < 2)
      invariant if n < 2 then bufSize == n && buf[..] == source else Scanning(source, buf[..], bufSize, i)
    {
      ghost var a := buf[..];
      SizeBounds(source, a, bufSize, i);
      if buf[i] == 0 && buf[i + 1] == 0 && buf[i + 2] == 3 {
        StepDrop(source, a, bufSize, i);
        RemoveAt(buf, i + 2);
        bufSize := bufSize - 1;
      } else {
        StepKeep(source, a, bufSize, i);
      }
      i := i + 1;
    }
    totalBit := bufSize * 8;
    if n >= 2 {
      SizeBounds(source, buf[..], bufSize, i);
      ScanDone(source, buf[..], bufSize);
      assert buf[..][..bufSize] == buf[..bufSize];
    } else {
      assert buf[..bufSize] == buf[..];
    }
  }

  /** The inner loop: everything behind `at` moves down one; the last byte stays. */
  method RemoveAt(buf: array<byte>, at: nat)
    requires at < buf.Length
    modifies buf
    ensures buf[..] == Removed(old(buf[..]), at)
  {
    var j := at;
    while j < buf.Length - 1
      invariant at <= j <= buf.Length - 1
      invariant forall k | 0 <= k < at :: buf[k] == old(buf[k])
      invariant forall k | at <= k < j :: buf[k] == old(buf[k + 1])
      invariant forall k | j <= k < buf.Length :: buf[k] == old(buf[k])
    {
      buf[j] := buf[j + 1];
      j := j + 1;
    }
  }

  /** The first two bytes are always kept. */
  lemma ScanTwo(s: seq<byte>)
    requires |s| >= 2
    ensures Scanning(s, s, |s|, 0)
  {
    hide Scan;
    ScanShort([], s);
    ScanShort([s[0]], s[1..]);
    assert [] + [s[0]] == [s[0]];
    assert [s[0]] + [s[1]] == s[..2] && s[1..][1..] == s[2..];
    assert s[2..|s|] == s[2..];
  }

  lemma ScanNoTwo(s: seq<byte>)
    requires |s| < 2
    ensures Scan([], s) == s
  {
    if |s| == 1 {
      ScanShort([], s);
      assert s[1..] == [] && s == [] + [s[0]];
    }
  }

  lemma SizeBounds(source: seq<byte>, a: seq<byte>, size: nat, i: nat)
    requires Scanning(source, a, size, i)
    ensures |a| == |source| && 2 <= size <= |source|
  {
  }

  /** After the last window everything real has been looked at. */
  lemma ScanDone(source: seq<byte>, a: seq<byte>, size: nat)
    requires |source| >= 2 && Scanning(source, a, size, |source| - 2)
    ensures a[..size] == Scan([], source)
  {
    if size == |source| {
      assert a[|source| - 2 + 2..size] == [];
    }
  }

  lemma ScanShort(kept: seq<byte>, rest: seq<byte>)
    requires |kept| < 2 && rest != []
    ensures Scan(kept, rest) == Scan(kept + [rest[0]], rest[1..])
  {
  }

  // ------------------------------------------------- both as automata over one byte at a time

  /** Zeros just seen, counted up to two. */
  function Zeros(z: nat, b: byte): nat {
    if b != 0 then 0 else if z >= 2 then 2 else z + 1
  }

  /** The code: `z` zeros end the kept bytes; `skip`: the byte before was dropped. */
  function CodeTail(z: nat, skip: bool, s: seq<byte>): seq<byte>
    decreases |s|
  {
    if s == [] then []
    else if !skip && z >= 2 && s[0] == 3 then CodeTail(z, true, s[1..])
    else [s[0]] + CodeTail(Zeros(z, s[0]), false, s[1..])
  }

  /** The standard: `z` zeros since the last removal. */
  function StandardTail(z: nat, s: seq<byte>): seq<byte>
    decreases |s|
  {
    if s == [] then []
    else if z >= 2 && s[0] == 3 then StandardTail(0, s[1..])
    else [s[0]] + StandardTail(Zeros(z, s[0]), s[1..])
  }

  function TrailingZeros(kept: seq<byte>): nat {
    if kept == [] || kept[|kept| - 1] != 0 then 0
    else if |kept| == 1 || kept[|kept| - 2] != 0 then 1 else 2
  }

  lemma {:induction false} ScanIsCodeTail(kept: seq<byte>, rest: seq<byte>)
    ensures Scan(kept, rest) == kept + CodeTail(TrailingZeros(kept), false, rest)
    decreases |rest|
  {
    if rest != [] {
      if !(EndsInZeros(kept) && rest[0] == 3) {
        ScanIsCodeTail(kept + [rest[0]], rest[1..]);
      } else if |rest| > 1 {
        ScanIsCodeTail(kept + [rest[1]], rest[2..]);
        assert rest[1..][1..] == rest[2..];
      }
    }
  }

  function ZeroBytes(z: nat): seq<byte> {
    if z == 0 then [] else if z == 1 then [0] else [0, 0]
  }

  lemma {:induction false} StandardIsTail(z: nat, s: seq<byte>)
    requires z <= 2
    ensures Standard(ZeroBytes(z) + s) == ZeroBytes(z) + StandardTail(z, s)
    decreases |s|
  {
    hide Standard, ZeroBytes;
    if s == [] {
      assert ZeroBytes(z) + s == ZeroBytes(z);
      StandardOfZeros(z);
      assert ZeroBytes(z) + [] == ZeroBytes(z);
    } else {
      var b, more := s[0], s[1..];
      assert s == [b] + more;
      var z' := if z == 2 && b == 3 then 0 else Zeros(z, b);
      StandardIsTail(z', more);
      StandardStep(z, b, more);
      Regroup(z, b, StandardTail(z', more));
    }
  }

  lemma StandardOfZeros(z: nat)
    requires z <= 2
    ensures Standard(ZeroBytes(z)) == ZeroBytes(z)
  {
    if z == 2 {
      assert Standard([0, 0][1..]) == [0];
    }
  }

  lemma Regroup(z: nat, b: byte, t: seq<byte>)
    requires z <= 2
    ensures ZeroBytes(0) + t == t
    ensures ZeroBytes(z) + [b] + t == ZeroBytes(z) + ([b] + t)
    ensures z < 2 ==> ZeroBytes(z + 1) + t == ZeroBytes(z) + ([0] + t)
    ensures [0] + (ZeroBytes(2) + t) == ZeroBytes(2) + ([0] + t)
  {
  }

  /** One byte behind `z` zeros, in terms of what the zeros are then. */
  lemma StandardStep(z: nat, b: byte, more: seq<byte>)
    requires z <= 2
    ensures var t := Standard(ZeroBytes(z) + ([b] + more));
            if z == 2 && b == 3 then t == ZeroBytes(2) + Standard(ZeroBytes(0) + more)
            else if b != 0 then t == ZeroBytes(z) + [b] + Standard(ZeroBytes(0) + more)
            else if z == 2 then t == [0] + Standard(ZeroBytes(2) + more)
            else t == Standard(ZeroBytes(z + 1) + more)
  {
    hide Standard, ZeroBytes;
    NoZeros(more);
    if z == 2 && b == 3 {
      StandardDrops(more);
    } else if b != 0 {
      KeepThrough(z, b, more);
    } else if z == 2 {
      ThirdZero(more);
    } else {
      OneMoreZero(z, more);
    }
  }

  lemma NoZeros(s: seq<byte>)
    ensures ZeroBytes(0) + s == s
  {
  }

  lemma OneMoreZero(z: nat, more: seq<byte>)
    requires z < 2
    ensures ZeroBytes(z) + ([0] + more) == ZeroBytes(z + 1) + more
  {
  }

  lemma ThirdZero(more: seq<byte>)
    ensures Standard(ZeroBytes(2) + ([0] + more)) == [0] + Standard(ZeroBytes(2) + more)
  {
    hide Standard;
    StandardCons(0, [0, 0] + more);
    assert ZeroBytes(2) + ([0] + more) == [0] + ([0, 0] + more);
  }

  lemma StandardDrops(more: seq<byte>)
    ensures Standard(ZeroBytes(2) + ([3] + more)) == ZeroBytes(2) + Standard(more)
  {
    assert ZeroBytes(2) + ([3] + more) == [0, 0, 3] + more;
    assert ([0, 0, 3] + more)[3..] == more;
  }

  lemma StandardCons(b: byte, s: seq<byte>)
    requires !(b == 0 && |s| >= 2 && s[0] == 0 && s[1] == 3)
    ensures Standard([b] + s) == [b] + Standard(s)
  {
    assert ([b] + s)[1..] == s;
  }

  lemma KeepThrough(z: nat, b: byte, more: seq<byte>)
    requires z <= 2 && b != 0 && (z < 2 || b != 3)
    ensures Standard(ZeroBytes(z) + ([b] + more)) == ZeroBytes(z) + [b] + Standard(more)
  {
    hide Standard;
    var s := [b] + more;
    StandardCons(b, more);
    StandardCons(0, s);
    if z == 0 {
      assert [] + s == s && [] + [b] == [b];
    } else if z == 1 {
      assert [0] + ([b] + Standard(more)) == [0] + [b] + Standard(more);
    } else {
      StandardCons(0, [0] + s);
      assert [0, 0] + s == [0] + ([0] + s);
      assert [0] + ([0] + ([b] + Standard(more))) == [0, 0] + [b] + Standard(more);
    }
  }

  /** Section 7.4.1 and section 7.3.1 undo each other. */
  lemma {:induction false} StandardInvertsEscape(r: seq<byte>, z: nat)
    requires z <= 2
    ensures StandardTail(z, Escape(r, z)) == r
    decreases |r|
  {
    var e := Escape(r, z);
    if r == [] {
      if z >= 2 {
        assert e[1..] == [];
      }
    } else {
      var z' := if z >= 2 && r[0] <= 3 then if r[0] == 0 then 1 else 0 else if r[0] == 0 then z + 1 else 0;
      StandardInvertsEscape(r[1..], z');
      var e' := Escape(r[1..], z');
      if z >= 2 && r[0] <= 3 {
        assert e[1..] == [r[0]] + e';
        assert e[1..][1..] == e';
      } else {
        assert e[1..] == e';
      }
    }
  }

  // ---------------------------------------------------------------- code against standard

  /** The five bytes on which the two part. */
  predicate ContestedAt(s: seq<byte>, i: nat) {
    i + 5 <= |s| && s[i] == 0 && s[i + 1] == 0 && s[i + 2] == 3 && s[i + 3] == 0 && s[i + 4] == 3
  }

  ghost predicate Contested(s: seq<byte>) {
    exists i: nat :: ContestedAt(s, i)
  }

  /** Somewhere the code, in state (z, skip), drops a byte the standard, in state y, keeps. */
  predicate Parts(z: nat, skip: bool, y: nat, s: seq<byte>)
    decreases |s|
  {
    s != [] &&
    var codeDrops := !skip && z >= 2 && s[0] == 3;
    var standardDrops := y >= 2 && s[0] == 3;
    || (codeDrops && !standardDrops)
    || Parts(if codeDrops then z else Zeros(z, s[0]), codeDrops, if standardDrops then 0 else Zeros(y, s[0]), s[1..])
  }

  /** The code never keeps more than the standard, and keeps less once they have parted. */
  lemma {:induction false} CodeKeepsNoMore(z: nat, skip: bool, y: nat, s: seq<byte>)
    requires y <= z <= 2 && (skip ==> y == 0)
    ensures |CodeTail(z, skip, s)| <= |StandardTail(y, s)|
    ensures Parts(z, skip, y, s) ==> |CodeTail(z, skip, s)| < |StandardTail(y, s)|
    ensures !Parts(z, skip, y, s) ==> CodeTail(z, skip, s) == StandardTail(y, s)
    decreases |s|
  {
    if s != [] {
      var codeDrops := !skip && z >= 2 && s[0] == 3;
      var standardDrops := y >= 2 && s[0] == 3;
      CodeKeepsNoMore(if codeDrops then z else Zeros(z, s[0]), codeDrops,
                      if standardDrops then 0 else Zeros(y, s[0]), s[1..]);
    }
  }

  /** What the two states remember of the bytes before. */
  function Past(z: nat, skip: bool, y: nat): seq<byte> {
    if skip then [0, 0, 3] else if z == y then ZeroBytes(z) else [0, 0, 3, 0]
  }

  predicate Reached(z: nat, skip: bool, y: nat) {
    if skip then z == 2 && y == 0 else z == y <= 2 || (z == 2 && y == 1)
  }

  lemma PastGrows(z: nat, skip: bool, y: nat, b: byte, t: seq<byte>)
    requires Reached(z, skip, y)
    requires !(!skip && z == 2 && y == 1 && b == 3)
    ensures var drop := !skip && z >= 2 && b == 3;
            var z', y' := if drop then z else Zeros(z, b), if drop then 0 else Zeros(y, b);
            && Reached(z', drop, y')
            && (Contested(Past(z', drop, y') + t) <==> Contested(Past(z, skip, y) + ([b] + t)))
  {
    var drop := !skip && z >= 2 && b == 3;
    var z', y' := if drop then z else Zeros(z, b), if drop then 0 else Zeros(y, b);
    var old', new' := Past(z, skip, y) + ([b] + t), Past(z', drop, y') + t;
    var k := |old'| - |new'|;
    assert k >= 0 && forall i | 0 <= i < |new'| :: new'[i] == old'[k + i];
    if Contested(new') {
      var i: nat :| ContestedAt(new', i);
      assert ContestedAt(old', k + i);
    }
    if Contested(old') {
      var i: nat :| ContestedAt(old', i);
      assert i >= k;
      assert ContestedAt(new', i - k);
    }
  }

  lemma {:induction false} PartsIffContested(z: nat, skip: bool, y: nat, s: seq<byte>)
    requires Reached(z, skip, y)
    ensures Parts(z, skip, y, s) <==> Contested(Past(z, skip, y) + s)
    decreases |s|
  {
    if s == [] {
    } else if !skip && z == 2 && y == 1 && s[0] == 3 {
      assert ContestedAt(Past(z, skip, y) + s, 0);
    } else {
      PastGrows(z, skip, y, s[0], s[1..]);
      assert [s[0]] + s[1..] == s;
      var drop := !skip && z >= 2 && s[0] == 3;
      PartsIffContested(if drop then z else Zeros(z, s[0]), drop, if drop then 0 else Zeros(y, s[0]), s[1..]);
    }
  }

  /** Main result: the code does what section 7.3.1 says on exactly the inputs without
      00 00 03 00 03. */
  lemma CodeAgreesIff(s: seq<byte>)
    ensures Scan([], s) == Standard(s) <==> !Contested(s)
  {
    ScanIsCodeTail([], s);
    StandardIsTail(0, s);
    assert ZeroBytes(0) + s == s;
    CodeKeepsNoMore(0, false, 0, s);
    PartsIffContested(0, false, 0, s);
  }

  /** Hence it recovers an escaped payload exactly when the escaped form has no such bytes. */
  lemma CodeInvertsEscapeIff(r: seq<byte>)
    ensures Scan([], Escape(r, 0)) == r <==> !Contested(Escape(r, 0))
  {
    CodeAgreesIff(Escape(r, 0));
    StandardInvertsEscape(r, 0);
    StandardIsTail(0, Escape(r, 0));
    assert ZeroBytes(0) + Escape(r, 0) == Escape(r, 0);
  }

  /** Such payloads exist: an odd run of zeros in front of a 03. */
  lemma ContestedPayload()
    ensures Escape([0, 0, 0, 3], 0) == [0, 0, 3, 0, 3]
    ensures Scan([], [0, 0, 3, 0, 3]) != [0, 0, 0, 3]
  {
    var r: seq<byte> := [0, 0, 0, 3];
    assert r[1..] == [0, 0, 3] && r[1..][1..] == [0, 3] && r[1..][1..][1..] == [3];
    assert Escape([3], 1) == [3];
    assert Escape([0, 3], 2) == [3, 0, 3];
    assert Escape([0, 0, 3], 1) == [0, 3, 0, 3];
    assert Escape(r, 0) == [0, 0, 3, 0, 3];
    assert ContestedAt([0, 0, 3, 0, 3], 0);
    CodeInvertsEscapeIff(r);
  }
}
