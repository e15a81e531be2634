/** Fixed-width integers on the wire: the loads and stores of `util.cpp` and of
    `flat_buffer`. A byte is a number below 256; shifts and ors of disjoint fields
    are written as the sums they are. */
module Bytes {

  type byte = x: int | 0 <= x < 0x100
  type uint32 = x: int | 0 <= x < 0x1_0000_0000

  const TWO_24: int := 0x100_0000
  const TWO_32: int := 0x1_0000_0000
  const TWO_64: int := 0x1_0000_0000_0000_0000

  datatype Option<+T> = None | Some(value: T) {
    function GetOr(default: T): T {
      if Some? then value else default
    }
  }

  function LoadBe16(s: seq<byte>): nat
    requires |s| >= 2
  {
    s[0] as int * 0x100 + s[1] as int
  }

  function LoadBe24(s: seq<byte>): nat
    requires |s| >= 3
  {
    s[0] as int * 0x1_0000 + s[1] as int * 0x100 + s[2] as int
  }

  function LoadBe32(s: seq<byte>): uint32
    requires |s| >= 4
  {
    s[0] as int * 0x100_0000 + s[1] as int * 0x1_0000 + s[2] as int * 0x100 + s[3] as int
  }

  function LoadLe32(s: seq<byte>): uint32
    requires |s| >= 4
  {
    s[3] as int * 0x100_0000 + s[2] as int * 0x1_0000 + s[1] as int * 0x100 + s[0] as int
  }

  function SetBe16(v: nat): (r: seq<byte>)
    ensures |r| == 2
  {
    [v / 0x100 % 0x100, v % 0x100]
  }

  function SetBe24(v: nat): (r: seq<byte>)
    ensures |r| == 3
  {
    [v / 0x1_0000 % 0x100, v / 0x100 % 0x100, v % 0x100]
  }

  function SetBe32(v: nat): (r: seq<byte>)
    ensures |r| == 4
  {
    [v / 0x100_0000 % 0x100, v / 0x1_0000 % 0x100, v / 0x100 % 0x100, v % 0x100]
  }

  function SetLe32(v: nat): (r: seq<byte>)
    ensures |r| == 4
  {
    [v % 0x100, v / 0x100 % 0x100, v / 0x1_0000 % 0x100, v / 0x100_0000 % 0x100]
  }

  /** Splitting off the lowest base-256 digit. */
  lemma LowByte(v: nat, w: nat)
    requires w > 0
    ensures v % (0x100 * w) == v / 0x100 % w * 0x100 + v % 0x100
  {
    var q, r := v / 0x100, v % 0x100;
    var a, b := q / w, q % w;
    assert v == (0x100 * w) * a + (0x100 * b + r) by {
      assert q == w * a + b;
    }
    assert 0 <= 0x100 * b + r < 0x100 * w;
    DivModUnique(v, 0x100 * w, a, 0x100 * b + r);
  }

  lemma MulAtLeast(d: int, k: int)
    requires d > 0 && k >= 1
    ensures d * k >= d
  {
  }

  lemma DivModUnique(v: int, d: int, q: int, r: int)
    requires d > 0 && v == d * q + r && 0 <= r < d
    ensures v / d == q && v % d == r
  {
    var k := q - v / d;
    assert d * k == d * q - d * (v / d);
    assert d * k == v % d - r;
    if k >= 1 {
      MulAtLeast(d, k);
    } else if k <= -1 {
      MulAtLeast(d, -k);
    }
  }

  /** The 24-bit store keeps the low 24 bits, whatever bytes follow it. */
  lemma Be24RoundTrip(v: nat, tail: seq<byte>)
    ensures LoadBe24(SetBe24(v) + tail) == v % TWO_24
  {
    LowByte(v, 0x1_0000);
    LowByte(v / 0x100, 0x100);
    assert v / 0x100 / 0x100 == v / 0x1_0000;
  }

  lemma Be16RoundTrip(v: nat, tail: seq<byte>)
    ensures LoadBe16(SetBe16(v) + tail) == v % 0x1_0000
  {
    LowByte(v, 0x100);
  }

  /** The 32-bit stores keep the low 32 bits, in either byte order. */
  lemma Word32RoundTrip(v: nat, tail: seq<byte>)
    ensures LoadBe32(SetBe32(v) + tail) == v % TWO_32
    ensures LoadLe32(SetLe32(v) + tail) == v % TWO_32
  {
    LowByte(v, 0x100_0000);
    LowByte(v / 0x100, 0x1_0000);
    LowByte(v / 0x1_0000, 0x100);
    assert v / 0x100 / 0x100 == v / 0x1_0000;
    assert v / 0x1_0000 / 0x100 == v / 0x100_0000;
  }

  /** Storing what was loaded gives the bytes back. */
  lemma Word32Bytes(s: seq<byte>)
    requires |s| >= 4
    ensures SetBe32(LoadBe32(s)) == s[..4]
  {
    var b := s[..4];
    LoadedDigits(s[0], s[1], s[2], s[3]);
    assert SetBe32(LoadBe32(s)) == [s[0], s[1], s[2], s[3]] == b;
  }

  lemma LoadedDigits(a: byte, b: byte, c: byte, d: byte)
    ensures SetBe32(LoadBe32([a, b, c, d])) == [a, b, c, d]
  {
    var v := LoadBe32([a, b, c, d]);
    DivModUnique(v, 0x100, a as int * 0x1_0000 + b as int * 0x100 + c as int, d as int);
    DivModUnique(v, 0x1_0000, a as int * 0x100 + b as int, c as int * 0x100 + d as int);
    DivModUnique(v, 0x100_0000, a as int, b as int * 0x1_0000 + c as int * 0x100 + d as int);
  }

  /** A two-byte length and that many bytes, and what follows. */
  function TakeSized(s: seq<byte>): (r: Option<(seq<byte>, seq<byte>)>)
    ensures r.Some? ==> |r.value.1| + 2 + |r.value.0| == |s|
  {
    if |s| < 2 || LoadBe16(s) > |s| - 2 then None else Some((s[2..][..LoadBe16(s)], s[2..][LoadBe16(s)..]))
  }

  /** Taking is undoing: what was taken, behind its length, is what was there. */
  lemma TakeSizedParts(s: seq<byte>)
    requires TakeSized(s).Some?
    ensures var (bytes, rest) := TakeSized(s).value;
            |bytes| < 0x1_0000 && s == SetBe16(|bytes|) + bytes + rest
  {
    var (bytes, rest) := TakeSized(s).value;
    DivModUnique(LoadBe16(s), 0x100, s[0], s[1]);
    assert SetBe16(|bytes|) == s[..2];
    assert s == s[..2] + (s[2..][..LoadBe16(s)] + s[2..][LoadBe16(s)..]);
  }

  lemma TakeSizedBack(bytes: seq<byte>, rest: seq<byte>)
    requires |bytes| < 0x1_0000
    ensures TakeSized(SetBe16(|bytes|) + bytes + rest) == Some((bytes, rest))
  {
    var s := SetBe16(|bytes|) + bytes + rest;
    Be16RoundTrip(|bytes|, bytes + rest);
    assert s == SetBe16(|bytes|) + (bytes + rest);
    assert s[2..] == bytes + rest;
  }

  lemma Assoc<T>(a: seq<T>, b: seq<T>, c: seq<T>)
    ensures a + (b + c) == a + b + c
  {
  }

  function Pow2(n: nat): (r: nat)
    ensures r > 0
  {
    if n == 0 then 1 else 2 * Pow2(n - 1)
  }

  lemma {:induction false} Pow2Add(a: nat, b: nat)
    ensures Pow2(a + b) == Pow2(a) * Pow2(b)
  {
    if b > 0 {
      Pow2Add(a, b - 1);
      assert Pow2(a) * (2 * Pow2(b - 1)) == 2 * (Pow2(a) * Pow2(b - 1));
    }
  }

  lemma Pow2Of32()
    ensures Pow2(32) == TWO_32
  {
    assert Pow2(8) == 256 by {
      assert Pow2(4) == 16;
    }
    Pow2Add(8, 8);
    Pow2Add(16, 16);
  }
}
