/** The bit reader and the Exp-Golomb codes of `SPSParser.c` (sections 9.1 and 9.1.1 of
    ITU-T H.264). */
module BitReaders {
  import opened Bytes

  const MAX_LEN := 32

  // ---------------------------------------------------------------- bits of a buffer

  /** Bit `i` of the buffer, the most significant bit of a byte first. */
  function BitAt(buf: seq<byte>, i: nat): (b: nat)
    requires i < 8 * |buf|
    ensures b <= 1
  {
    buf[i / 8] / Pow2(7 - i % 8) % 2
  }

  /** The number written in the `n` bits from `pos` on. */
  function BitsValue(buf: seq<byte>, pos: nat, n: nat): (v: nat)
    requires pos + n <= 8 * |buf|
    ensures v < Pow2(n)
  {
    if n == 0 then 0 else 2 * BitsValue(buf, pos, n - 1) + BitAt(buf, pos + n - 1)
  }

  // ---------------------------------------------------------------- what getBits computes

  /** The byte `k` places before the end of a group of `count` bytes; 0 in front of it. */
  function FromEnd(buf: seq<byte>, at: nat, count: nat, k: nat): byte
    requires at + count <= |buf|
  {
    if k < count then buf[at + count - 1 - k] else 0
  }

  /** The `count` bytes from `at` on, of which a 32-bit word keeps the last four. */
  function Window(buf: seq<byte>, at: nat, count: nat): (w: nat)
    requires at + count <= |buf|
    ensures w < TWO_32
  {
    FromEnd(buf, at, count, 3) as nat * 0x100_0000 + FromEnd(buf, at, count, 2) as nat * 0x1_0000
    + FromEnd(buf, at, count, 1) as nat * 0x100 + FromEnd(buf, at, count, 0) as nat
  }

  /** A 32-bit word as the signed `int` it is stored in. */
  function Signed(w: nat): int
    requires w < TWO_32
  {
    if w < 0x8000_0000 then w else w - TWO_32
  }

  /** The word is shifted as a signed number, and masked. */
  function Cut(word: nat, shift: nat, n: nat): (v: nat)
    requires word < TWO_32
    ensures v < Pow2(n)
  {
    Signed(word) / Pow2(shift) % Pow2(n)
  }

  /** The value `getBits` extracts. */
  function Extracted(buf: seq<byte>, pos: nat, n: nat): nat
    requires n <= MAX_LEN && pos + n <= 8 * |buf|
  {
    var cur := pos % 8;
    var count := (cur + n + 7) / 8;
    var shift := (8 - (cur + n)) % 8;
    Cut(Window(buf, pos / 8, count), shift, n)
  }

  lemma ShiftIn(x: nat, p: nat, y: nat, bit: nat)
    ensures 2 * (x * p + y) + bit == x * (2 * p) + (2 * y + bit)
  {
  }

  /** Two adjacent fields read as one. */
  lemma {:induction false} BitsConcat(buf: seq<byte>, pos: nat, n: nat, m: nat)
    requires pos + n + m <= 8 * |buf|
    ensures BitsValue(buf, pos, n + m) == BitsValue(buf, pos, n) * Pow2(m) + BitsValue(buf, pos + n, m)
  {
    hide BitAt;
    if m > 0 {
      BitsConcat(buf, pos, n, m - 1);
      ShiftIn(BitsValue(buf, pos, n), Pow2(m - 1), BitsValue(buf, pos + n, m - 1), BitAt(buf, pos + n + m - 1));
    }
  }

  lemma HalfQuotient(b: nat, d: nat)
    requires d > 0
    ensures b / d == 2 * (b / (2 * d)) + b / d % 2
  {
    var q, r := b / d, b % d;
    var h, e := q / 2, q % 2;
    assert b == d * q + r && q == 2 * h + e;
    assert d * (2 * h + e) == (2 * d) * h + d * e;
    assert e == 0 || e == 1;
    assert d * e == if e == 0 then 0 else d;
    DivModUnique(b, 2 * d, h, d * e + r);
  }

  lemma {:induction false} ByteBits(buf: seq<byte>, at: nat, k: nat)
    requires at < |buf| && k <= 8
    ensures BitsValue(buf, 8 * at, k) == buf[at] / Pow2(8 - k)
  {
    if k == 0 {
      assert Pow2(8) == 256 by {
        assert Pow2(4) == 16;
      }
    } else {
      ByteBits(buf, at, k - 1);
      var i := 8 * at + k - 1;
      assert i / 8 == at && i % 8 == k - 1;
      HalfQuotient(buf[at], Pow2(8 - k));
      assert Pow2(8 - (k - 1)) == 2 * Pow2(8 - k);
    }
  }

  lemma WindowStep(buf: seq<byte>, at: nat, count: nat)
    requires 0 < count <= 4 && at + count <= |buf|
    ensures Window(buf, at, count) == Window(buf, at, count - 1) * 256 + buf[at + count - 1]
  {
    assert FromEnd(buf, at, count, 0) == buf[at + count - 1];
    assert FromEnd(buf, at, count, 1) == FromEnd(buf, at, count - 1, 0);
    assert FromEnd(buf, at, count, 2) == FromEnd(buf, at, count - 1, 1);
    assert FromEnd(buf, at, count, 3) == FromEnd(buf, at, count - 1, 2);
    assert FromEnd(buf, at, count - 1, 3) == 0;
  }

  lemma AppendByte(buf: seq<byte>, pos: nat, n: nat)
    requires pos + n + 8 <= 8 * |buf|
    ensures BitsValue(buf, pos, n + 8) == BitsValue(buf, pos, n) * 256 + BitsValue(buf, pos + n, 8)
  {
    hide BitsValue;
    BitsConcat(buf, pos, n, 8);
    assert Pow2(8) == 256 by {
      assert Pow2(4) == 16;
    }
  }

  lemma WindowNone(buf: seq<byte>, at: nat)
    requires at <= |buf|
    ensures Window(buf, at, 0) == 0 && BitsValue(buf, 8 * at, 0) == 0
  {
  }

  lemma {:induction false} WindowBits(buf: seq<byte>, at: nat, count: nat)
    requires count <= 4 && at + count <= |buf|
    ensures BitsValue(buf, 8 * at, 8 * count) == Window(buf, at, count)
  {
    hide *;
    if count == 0 {
      WindowNone(buf, at);
    } else {
      var n := 8 * (count - 1);
      WindowBits(buf, at, count - 1);
      WindowStep(buf, at, count);
      AppendByte(buf, 8 * at, n);
      WholeByte(buf, at + count - 1);
      assert BitsValue(buf, 8 * at + n, 8) == BitsValue(buf, 8 * (at + count - 1), 8);
      assert BitsValue(buf, 8 * at, 8 * count) == BitsValue(buf, 8 * at, n + 8);
    }
  }

  lemma WholeByte(buf: seq<byte>, at: nat)
    requires at < |buf|
    ensures BitsValue(buf, 8 * at, 8) == buf[at]
  {
    hide BitsValue;
    ByteBits(buf, at, 8);
    assert Pow2(0) == 1;
  }

  /** A field between `low` and `high`, cut out by a shift and a mask. */
  lemma FieldOf(high: int, field: nat, low: nat, q: nat, p: nat)
    requires field < q && low < p
    ensures ((high * q + field) * p + low) / p % q == field
  {
    var top := high * q + field;
    DivModUnique(top * p + low, p, top, low);
    DivModUnique(top, q, high, field);
  }

  lemma BorrowFromHigh(high: int, field: nat, low: nat, q: nat, p: nat, c: nat)
    ensures (high * q + field) * p + low - c * q * p == ((high - c) * q + field) * p + low
  {
    assert (high - c) * q == high * q - c * q;
    assert ((high * q + field) - c * q) * p == (high * q + field) * p - c * q * p;
  }

  /** The bits of the window, around those of the field. */
  lemma WindowParts(buf: seq<byte>, pos: nat, n: nat, shift: nat)
    requires pos % 8 + n <= 32 && pos + n + shift <= 8 * |buf|
    requires shift < 8 && (pos % 8 + n + shift) % 8 == 0
    ensures var count := (pos % 8 + n + shift) / 8;
            Window(buf, pos / 8, count)
            == (BitsValue(buf, 8 * (pos / 8), pos % 8) * Pow2(n) + BitsValue(buf, pos, n)) * Pow2(shift)
               + BitsValue(buf, pos + n, shift)
  {
    hide Window, BitsValue, Pow2;
    var at, cur := pos / 8, pos % 8;
    var count := (cur + n + shift) / 8;
    BytesToBits(at, count, cur + n + shift, pos);
    WindowPartsAt(buf, at, count, cur, n, shift);
  }

  lemma WindowPartsAt(buf: seq<byte>, at: nat, count: nat, cur: nat, n: nat, shift: nat)
    requires count <= 4 && at + count <= |buf| && 8 * count == cur + n + shift
    ensures Window(buf, at, count)
            == (BitsValue(buf, 8 * at, cur) * Pow2(n) + BitsValue(buf, 8 * at + cur, n)) * Pow2(shift)
               + BitsValue(buf, 8 * at + cur + n, shift)
  {
    hide *;
    var top := BitsValue(buf, 8 * at, cur + n);
    assert Window(buf, at, count) == top * Pow2(shift) + BitsValue(buf, 8 * at + cur + n, shift) by {
      WindowBits(buf, at, count);
      BitsConcat(buf, 8 * at, cur + n, shift);
    }
    assert top == BitsValue(buf, 8 * at, cur) * Pow2(n) + BitsValue(buf, 8 * at + cur, n) by {
      BitsConcat(buf, 8 * at, cur, n);
    }
  }

  lemma BytesToBits(at: nat, count: nat, bits: nat, pos: nat)
    requires at == pos / 8 && bits % 8 == 0 && count == bits / 8
    ensures 8 * count == bits && 8 * at + pos % 8 == pos && 8 * (at + count) == 8 * at + bits
  {
  }

  /** The signed word gives up the field as the unsigned one would. */
  lemma CutField(w: nat, high: nat, field: nat, low: nat, n: nat, shift: nat, cur: nat)
    requires w < TWO_32 && (w >= 0x8000_0000 ==> cur + n + shift == 32)
    requires field < Pow2(n) && low < Pow2(shift)
    requires w == (high * Pow2(n) + field) * Pow2(shift) + low
    ensures Cut(w, shift, n) == field
  {
    hide Pow2;
    if w < 0x8000_0000 {
      FieldOf(high, field, low, Pow2(n), Pow2(shift));
    } else {
      Pow2Of32();
      Pow2Add(cur + n, shift);
      Pow2Add(cur, n);
      BorrowFromHigh(high, field, low, Pow2(n), Pow2(shift), Pow2(cur));
      FieldOf(high - Pow2(cur), field, low, Pow2(n), Pow2(shift));
    }
  }

  /** Within a 32-bit word the gathered value is the one in the bits. */
  lemma ExtractedIsExact(buf: seq<byte>, pos: nat, n: nat)
    requires n <= MAX_LEN && pos + n <= 8 * |buf| && pos % 8 + n <= 32
    ensures Extracted(buf, pos, n) == BitsValue(buf, pos, n)
  {
    hide Pow2, BitsValue, Window, Cut;
    var at, cur := pos / 8, pos % 8;
    var count := (cur + n + 7) / 8;
    var shift := (8 - (cur + n)) % 8;
    WholeBytes(cur, n);
    WindowParts(buf, pos, n, shift);
    var w := Window(buf, at, count);
    if w >= 0x8000_0000 {
      SmallWindow(buf, at, count);
    }
    CutField(w, BitsValue(buf, 8 * at, cur), BitsValue(buf, pos, n), BitsValue(buf, pos + n, shift), n, shift, cur);
  }

  /** Up to the end of the last byte that a field touches. */
  lemma WholeBytes(cur: nat, n: nat)
    ensures var count, shift := (cur + n + 7) / 8, (8 - (cur + n)) % 8;
            cur + n + shift == 8 * count && (cur + n + shift) % 8 == 0 && (cur + n + shift) / 8 == count
  {
  }

  lemma SmallWindow(buf: seq<byte>, at: nat, count: nat)
    requires count <= 4 && at + count <= |buf| && Window(buf, at, count) >= 0x8000_0000
    ensures count == 4
  {
  }

  /** Beyond one word, which holds the last four of the bytes only: the bits of the first byte
      are lost, and copies of the bit behind them stand in their place. */
  lemma ExtractedBeyond(buf: seq<byte>, pos: nat, n: nat)
    requires n <= MAX_LEN && pos + n <= 8 * |buf| && pos % 8 + n > 32
    ensures var second, kept := 8 * (pos / 8) + 8, pos % 8 + n - 8;
            Extracted(buf, pos, n) == BitsValue(buf, second, kept) + BitAt(buf, second) * (Pow2(n) - Pow2(kept))
  {
    hide Pow2, BitsValue, BitAt, Window, Cut;
    var at, cur := pos / 8, pos % 8;
    var shift, kept := 40 - (cur + n), cur + n - 8;
    var second := 8 * at + 8;
    FiveBytes(cur, n);
    LastFour(buf, at);
    WindowBits(buf, at + 1, 4);
    BitsConcat(buf, second, kept, shift);
    TopBit(buf, second);
    CutSigned(Window(buf, at, 5), BitsValue(buf, second, kept), BitsValue(buf, second + kept, shift), BitAt(buf, second),
              kept, n, shift);
  }

  lemma FiveBytes(cur: nat, n: nat)
    requires cur < 8 && n <= MAX_LEN && cur + n > 32
    ensures (cur + n + 7) / 8 == 5 && (8 - (cur + n)) % 8 == 40 - (cur + n)
  {
  }

  lemma LastFour(buf: seq<byte>, at: nat)
    requires at + 5 <= |buf|
    ensures Window(buf, at, 5) == Window(buf, at + 1, 4)
  {
  }

  lemma TopBit(buf: seq<byte>, pos: nat)
    requires pos + 32 <= 8 * |buf|
    ensures BitAt(buf, pos) == if BitsValue(buf, pos, 32) < 0x8000_0000 then 0 else 1
  {
    hide BitAt, Pow2;
    BitsConcat(buf, pos, 1, 31);
    assert BitsValue(buf, pos, 1) == BitAt(buf, pos) by {
      assert BitsValue(buf, pos, 0) == 0;
    }
    Pow2Of31();
  }

  /** The sign of the word fills up what the shift leaves free. */
  lemma CutSigned(w: nat, field: nat, low: nat, bit: nat, kept: nat, n: nat, shift: nat)
    requires w < TWO_32 && bit == (if w < 0x8000_0000 then 0 else 1)
    requires kept + shift == 32 && kept <= n && field < Pow2(kept) && low < Pow2(shift)
    requires w == field * Pow2(shift) + low
    ensures Cut(w, shift, n) == field + bit * (Pow2(n) - Pow2(kept))
  {
    hide Pow2;
    Pow2Of32();
    Pow2Add(kept, shift);
    Pow2Add(kept, n - kept);
    MulAtLeast(Pow2(kept), Pow2(n - kept));
    if bit == 1 {
      Borrowed(field, low, Pow2(kept), Pow2(n), Pow2(shift));
    } else {
      FieldOf(0, field, low, Pow2(n), Pow2(shift));
    }
  }

  lemma Borrowed(field: nat, low: nat, c: nat, q: nat, p: nat)
    requires field < c <= q && low < p
    ensures (field * p + low - c * p) / p % q == field + (q - c)
  {
    var filled := field + (q - c);
    assert -1 * q + filled == field - c;
    assert (field - c) * p == field * p - c * p;
    FieldOf(-1, filled, low, q, p);
  }

  ghost predicate AlwaysExact(cur: nat, n: nat)
    requires cur < 8 && n <= MAX_LEN
  {
    forall buf: seq<byte>, pos: nat | pos % 8 == cur && pos + n <= 8 * |buf| :: Extracted(buf, pos, n) == BitsValue(buf, pos, n)
  }

  lemma {:induction false} LeadingOne(buf: seq<byte>, pos: nat, n: nat)
    requires n > 0 && pos + n <= 8 * |buf| && BitAt(buf, pos) == 1
    ensures BitsValue(buf, pos, n) > 0
  {
    hide BitAt;
    if n > 1 {
      LeadingOne(buf, pos, n - 1);
    } else {
      assert BitsValue(buf, pos, 0) == 0;
    }
  }

  /** The field starts with a one the four-byte word has lost. */
  lemma FifthByteLost(cur: nat, n: nat) returns (buf: seq<byte>)
    requires cur < 8 && n <= MAX_LEN && cur + n > 32
    ensures cur + n <= 8 * |buf| && Extracted(buf, cur, n) != BitsValue(buf, cur, n)
  {
    buf := [255, 0, 0, 0, 0];
    NothingGathered(buf, cur, n);
    hide Extracted, Pow2;
    ByteBits(buf, 0, cur);
    ByteBits(buf, 0, cur + 1);
    AllOnes(cur);
    hide BitAt;
    assert BitsValue(buf, 0, cur + 1) == 2 * BitsValue(buf, 0, cur) + BitAt(buf, cur);
    LeadingOne(buf, cur, n);
  }

  lemma NothingGathered(buf: seq<byte>, cur: nat, n: nat)
    requires buf == [255, 0, 0, 0, 0] && cur < 8 && n <= MAX_LEN && cur + n > 32
    ensures Extracted(buf, cur, n) == 0
  {
    hide Cut;
    assert cur / 8 == 0 && cur % 8 == cur && (cur + n + 7) / 8 == 5;
    assert Window(buf, 0, 5) == 0;
    CutNothing((8 - (cur + n)) % 8, n);
  }

  lemma CutNothing(shift: nat, n: nat)
    ensures Cut(0, shift, n) == 0
  {
    DivModUnique(0, Pow2(shift), 0, 0);
    DivModUnique(0, Pow2(n), 0, 0);
  }

  lemma AllOnes(cur: nat)
    requires cur < 8
    ensures 255 / Pow2(8 - (cur + 1)) == 2 * (255 / Pow2(8 - cur)) + 1
  {
    assert Pow2(0) == 1 && Pow2(1) == 2 && Pow2(2) == 4 && Pow2(3) == 8;
    assert Pow2(4) == 16 && Pow2(5) == 32 && Pow2(6) == 64 && Pow2(7) == 128;
  }

  /** `getBits` drops the fifth byte of the field, and is right for every content exactly
      when it does not need one. */
  lemma ExactIff(cur: nat, n: nat)
    requires cur < 8 && n <= MAX_LEN
    ensures AlwaysExact(cur, n) <==> cur + n <= 32
  {
    hide Extracted, BitsValue;
    if cur + n <= 32 {
      forall buf: seq<byte>, pos: nat | pos % 8 == cur && pos + n <= 8 * |buf|
        ensures Extracted(buf, pos, n) == BitsValue(buf, pos, n)
      {
        ExtractedIsExact(buf, pos, n);
      }
    } else {
      var buf := FifthByteLost(cur, n);
      assert cur % 8 == cur;
    }
  }

  lemma GatherIsWindow(buf: seq<byte>, at: nat, count: nat, temp: seq<byte>)
    requires count <= 5 && at + count <= |buf| && temp == seq(5 - count, _ => 0) + buf[at..at + count]
    ensures temp[1] as int * 0x100_0000 + temp[2] as int * 0x1_0000 + temp[3] as int * 0x100 + temp[4] as int
            == Window(buf, at, count)
  {
    assert forall k | 0 <= k < 4 :: temp[4 - k] == FromEnd(buf, at, count, k);
  }

  lemma ExtractedFits(buf: seq<byte>, pos: nat, n: nat)
    requires n <= MAX_LEN && pos + n <= 8 * |buf|
    ensures Extracted(buf, pos, n) < Pow2(n) <= TWO_32
  {
    Pow2Add(n, 32 - n);
    Pow2Of32();
    MulAtLeast(Pow2(n), Pow2(32 - n));
  }

  /** Stored in a `uint8_t`. */
  function Uint8(x: int): (r: nat)
    ensures r < 256
  {
    x % 256
  }

  lemma Uint8Steps(x: int)
    ensures Uint8(-1) == 255 && Uint8(x + 1) == (Uint8(x) + 1) % 256
  {
  }

  // ---------------------------------------------------------------- the reader

  class BitReader {
    const buf: seq<byte>
    var bufSize: int
    var totalBit: int
    var bitPos: nat
    var curBitPos: nat

    ghost predicate Valid()
      reads this
    {
      bufSize == |buf| && totalBit == 8 * bufSize && bitPos <= totalBit && curBitPos == bitPos % 8
    }

    constructor (buf: seq<byte>)
      ensures this.buf == buf && Valid() && bitPos == 0
    {
      this.buf := buf;
      bufSize, totalBit := |buf|, 8 * |buf|;
      bitPos, curBitPos := 0, 0;
    }

    function BitsLeft(): (n: int)
      requires Valid()
      reads this
      ensures n == 8 * |buf| - bitPos
    {
      if bufSize <= 0 || totalBit <= 0 then 0 else totalBit - bitPos
    }

    method GetOneBit() returns (b: int)
      requires Valid()
      modifies this`bitPos, this`curBitPos
      ensures Valid()
      ensures if old(bitPos) < 8 * |buf| then b == BitAt(buf, old(bitPos)) && bitPos == old(bitPos) + 1
              else b == -1 && bitPos == old(bitPos)
    {
      if BitsLeft() < 1 {
        return -1;
      }
      var shift := 7 - curBitPos;
      var curChar := buf[bitPos / 8];
      bitPos := bitPos + 1;
      curBitPos := bitPos % 8;
      b := curChar / Pow2(shift) % 2;
    }

    /** Fewer bits left than asked for: 0, and no bit is used. */
    method GetBits(len: nat) returns (v: uint32)
      requires Valid()
      modifies this`bitPos, this`curBitPos
      ensures Valid()
      ensures var n := if len > MAX_LEN then MAX_LEN else len;
              if old(bitPos) + n > 8 * |buf| then v == 0 && bitPos == old(bitPos)
              else v == Extracted(buf, old(bitPos), n) && bitPos == old(bitPos) + n
      ensures len <= MAX_LEN && old(bitPos) + len <= 8 * |buf| && old(bitPos) % 8 + len <= 32 ==>
                v == BitsValue(buf, old(bitPos), len)
    {
      v := ShowBits(len);
      var n := if len > MAX_LEN then MAX_LEN else len;
      if BitsLeft() < n {
        return;
      }
      bitPos := bitPos + n;
      curBitPos := bitPos % 8;
    }

    /** The same value without moving on. */
    method ShowBits(len: nat) returns (v: uint32)
      requires Valid()
      ensures var n := if len > MAX_LEN then MAX_LEN else len;
              v == if bitPos + n > 8 * |buf| then 0 else Extracted(buf, bitPos, n)
      ensures len <= MAX_LEN && bitPos + len <= 8 * |buf| && bitPos % 8 + len <= 32 ==> v == BitsValue(buf, bitPos, len)
    {
      hide Window, Pow2, BitsValue, Cut, BitAt;
      var n := if len > MAX_LEN then MAX_LEN else len;
      if BitsLeft() < n {
        return 0;
      }
      var at := bitPos / 8;
      var nbyte := (curBitPos + n + 7) / 8;
      var shift := (8 - (curBitPos + n)) % 8;
      var temp: seq<byte> := seq(5 - nbyte, _ => 0) + buf[at..at + nbyte];
      var word := temp[1] as int * 0x100_0000 + temp[2] as int * 0x1_0000 + temp[3] as int * 0x100 + temp[4] as int;
      GatherIsWindow(buf, at, nbyte, temp);
      ExtractedFits(buf, bitPos, n);
      v := Cut(word, shift, n);
      if curBitPos + n <= 32 {
        ExtractedIsExact(buf, bitPos, n);
      }
    }

    /** The reference: as many single bits. */
    method BitByBit(n: nat) returns (v: nat)
      requires Valid() && bitPos + n <= 8 * |buf|
      modifies this`bitPos, this`curBitPos
      ensures Valid() && v == BitsValue(buf, old(bitPos), n) && bitPos == old(bitPos) + n
    {
      v := 0;
      for i := 0 to n
        invariant Valid() && bitPos == old(bitPos) + i
        invariant v == BitsValue(buf, old(bitPos), i)
      {
        var b := GetOneBit();
        v := 2 * v + b;
      }
    }

    /** The loop over the prefix: zeros are counted in a byte that starts at 255; running out
        of data ends the count like a one. */
    method CountZeros() returns (leading: nat)
      requires Valid()
      modifies this`bitPos, this`curBitPos
      ensures Valid() && bitPos == AfterUnary(buf, old(bitPos)) && leading == Uint8(Unary(buf, old(bitPos)))
    {
      hide BitAt, Unary, Uint8;
      ghost var start := bitPos;
      ghost var zeros := -1;
      var b := 0;
      leading := 255;
      Uint8Steps(-1);
      while b == 0
        invariant Valid() && start <= bitPos && leading == Uint8(zeros)
        invariant if b == 0 then zeros == bitPos - start - 1 && bitPos + Unary(buf, bitPos) == start + Unary(buf, start)
                  else zeros == Unary(buf, start) && bitPos == AfterUnary(buf, start)
        decreases 8 * |buf| - bitPos, b == 0
      {
        UnaryStep(buf, bitPos);
        Uint8Steps(zeros);
        var bit := GetOneBit();
        b := if bit == -1 then 255 else bit;
        leading := (leading + 1) % 256;
        zeros := zeros + 1;
      }
    }

    /** A shift by 32 or more has no defined value in C. */
    method ParseCodenum() returns (v: int)
      requires Valid()
      modifies this`bitPos, this`curBitPos
      ensures Valid()
      ensures -0x8000_0000 <= v < 0x8000_0000
      ensures Unary(buf, old(bitPos)) < 32 ==> (v, bitPos) == Codenum(buf, old(bitPos))
      ensures bitPos >= old(bitPos)
      ensures old(bitPos) == 8 * |buf| ==> v == 0
    {
      hide Extracted, BitsValue, Unary, AfterUnary, Pow2;
      if bitPos == 8 * |buf| {
        NothingLeft(buf);
      }
      var leading := CountZeros();
      var power: int;
      if leading < 32 {
        power := Pow2(leading);
      } else {
        power :| 0 <= power < TWO_32;
      }
      var suffix := GetBits(leading);
      v := Signed((power - 1 + suffix) % TWO_32);
    }

    method ParseUe() returns (v: int)
      requires Valid()
      modifies this`bitPos, this`curBitPos
      ensures Valid()
      ensures -0x8000_0000 <= v < 0x8000_0000
      ensures Unary(buf, old(bitPos)) < 32 ==> (v, bitPos) == Codenum(buf, old(bitPos))
      ensures bitPos >= old(bitPos)
      ensures old(bitPos) == 8 * |buf| ==> v == 0
    {
      v := ParseCodenum();
    }

    method ParseSe() returns (v: int)
      requires Valid()
      modifies this`bitPos, this`curBitPos
      ensures Valid()
      ensures Unary(buf, old(bitPos)) < 32 ==>
                var (k, next) := Codenum(buf, old(bitPos)); v == SignedOf(k) && bitPos == next
    {
      var codeNum := ParseCodenum();
      var half := (codeNum + 1) / 2;
      v := if codeNum % 2 == 1 then half else -half;
    }
  }

  // ---------------------------------------------------------------- Exp-Golomb codes

  /** The number of zero bits from `pos` to the next one bit, or to the end. */
  function Unary(buf: seq<byte>, pos: nat): nat
    requires pos <= 8 * |buf|
    decreases 8 * |buf| - pos
  {
    if pos == 8 * |buf| || BitAt(buf, pos) == 1 then 0 else 1 + Unary(buf, pos + 1)
  }

  lemma {:induction false} UnaryInside(buf: seq<byte>, pos: nat)
    requires pos <= 8 * |buf|
    ensures pos + Unary(buf, pos) <= 8 * |buf|
    decreases 8 * |buf| - pos
  {
    if pos < 8 * |buf| && BitAt(buf, pos) != 1 {
      UnaryInside(buf, pos + 1);
    }
  }

  /** At the end of the data the code number is 0. */
  lemma NothingLeft(buf: seq<byte>)
    ensures Unary(buf, 8 * |buf|) == 0 && Codenum(buf, 8 * |buf|) == (0, 8 * |buf|)
  {
  }

  lemma UnaryStep(buf: seq<byte>, pos: nat)
    requires pos <= 8 * |buf|
    ensures pos == 8 * |buf| ==> Unary(buf, pos) == 0
    ensures pos < 8 * |buf| ==> Unary(buf, pos) == if BitAt(buf, pos) == 1 then 0 else 1 + Unary(buf, pos + 1)
    ensures pos + Unary(buf, pos) <= 8 * |buf|
  {
    UnaryInside(buf, pos);
  }

  /** Behind the zeros and the one, if there is one. */
  function AfterUnary(buf: seq<byte>, pos: nat): (next: nat)
    requires pos <= 8 * |buf|
    ensures pos <= next <= 8 * |buf|
  {
    var z := Unary(buf, pos);
    if pos + z < 8 * |buf| then pos + z + 1 else 8 * |buf|
  }

  /** What `parseCodenum` returns for fewer than 32 leading zeros, and where it stops. */
  function Codenum(buf: seq<byte>, pos: nat): (int, nat)
    requires pos <= 8 * |buf| && Unary(buf, pos) < 32
  {
    var z, next := Unary(buf, pos), AfterUnary(buf, pos);
    if next + z > 8 * |buf| then (Signed((Pow2(z) - 1) % TWO_32), next)
    else (Signed((Pow2(z) - 1 + Extracted(buf, next, z)) % TWO_32), next + z)
  }

  function SignedOf(k: int): int {
    if k % 2 == 1 then (k + 1) / 2 else -((k + 1) / 2)
  }

  // ---------------------------------------------------------------- encoding

  /** `x` in exactly `n` bits. */
  function ToBits(x: nat, n: nat): (r: seq<nat>)
    ensures |r| == n
  {
    if n == 0 then [] else ToBits(x / 2, n - 1) + [x % 2]
  }

  /** The length of the binary form of v + 1, less one. */
  function Log2(x: nat): (m: nat)
    requires x > 0
    ensures Pow2(m) <= x < Pow2(m + 1)
  {
    if x == 1 then 0 else 1 + Log2(x / 2)
  }

  /** Section 9.1: m zeros, a one, and the m bits of v + 1 below its leading one. */
  function ExpGolomb(v: nat): (r: seq<nat>)
    ensures |r| == 2 * Log2(v + 1) + 1
  {
    var m := Log2(v + 1);
    ToBits(0, m) + [1] + ToBits(v + 1 - Pow2(m), m)
  }

  /** Section 9.1.1. */
  function SignedToCodenum(s: int): nat {
    if s > 0 then 2 * s - 1 else -2 * s
  }

  ghost predicate Holds(buf: seq<byte>, pos: nat, bits: seq<nat>) {
    pos + |bits| <= 8 * |buf| && forall i | 0 <= i < |bits| :: BitAt(buf, pos + i) == bits[i]
  }

  lemma {:induction false} ToBitsOfZero(n: nat, i: nat)
    requires i < n
    ensures ToBits(0, n)[i] == 0
  {
    if i < n - 1 {
      ToBitsOfZero(n - 1, i);
    }
  }

  /** Reading back what was written in `n` bits. */
  lemma {:induction false} BitsRoundTrip(buf: seq<byte>, pos: nat, x: nat, n: nat)
    requires x < Pow2(n) && Holds(buf, pos, ToBits(x, n))
    ensures BitsValue(buf, pos, n) == x
  {
    hide BitAt;
    if n > 0 {
      var front := ToBits(x / 2, n - 1);
      forall i | 0 <= i < n - 1
        ensures BitAt(buf, pos + i) == front[i]
      {
        assert ToBits(x, n)[i] == front[i];
      }
      BitsRoundTrip(buf, pos, x / 2, n - 1);
      assert ToBits(x, n)[n - 1] == x % 2;
    }
  }

  lemma {:induction false} UnaryOfZeros(buf: seq<byte>, pos: nat, m: nat)
    requires pos + m < 8 * |buf| && BitAt(buf, pos + m) == 1
    requires forall k | pos <= k < pos + m :: BitAt(buf, k) == 0
    ensures Unary(buf, pos) == m
    decreases m
  {
    hide BitAt;
    if m > 0 {
      assert pos + 1 + (m - 1) == pos + m;
      UnaryOfZeros(buf, pos + 1, m - 1);
    }
  }

  /** Where the pieces of a code lie. */
  lemma CodeLayout(buf: seq<byte>, pos: nat, v: nat)
    requires Holds(buf, pos, ExpGolomb(v))
    ensures var m := Log2(v + 1);
            && Unary(buf, pos) == m
            && AfterUnary(buf, pos) == pos + m + 1
            && pos + 2 * m + 1 <= 8 * |buf|
            && BitsValue(buf, pos + m + 1, m) == v + 1 - Pow2(m)
  {
    hide BitAt;
    var m := Log2(v + 1);
    var bits := ExpGolomb(v);
    forall k | pos <= k < pos + m
      ensures BitAt(buf, k) == 0
    {
      ToBitsOfZero(m, k - pos);
      assert bits[k - pos] == 0;
      assert pos + (k - pos) == k;
    }
    assert bits[m] == 1;
    UnaryOfZeros(buf, pos, m);
    var suffix := ToBits(v + 1 - Pow2(m), m);
    forall i | 0 <= i < m
      ensures BitAt(buf, pos + m + 1 + i) == suffix[i]
    {
      assert bits[m + 1 + i] == suffix[i];
      assert pos + m + 1 + i == pos + (m + 1 + i);
    }
    BitsRoundTrip(buf, pos + m + 1, v + 1 - Pow2(m), m);
  }

  /** Main result: a code is read back, and the reader stops behind it, whenever its suffix
      fits the word the reader gathers. */
  lemma CodenumRoundTrip(buf: seq<byte>, pos: nat, v: nat)
    requires v < 0x7FFF_FFFF && Holds(buf, pos, ExpGolomb(v))
    requires (pos + Log2(v + 1) + 1) % 8 + Log2(v + 1) <= 32
    ensures Unary(buf, pos) < 32 && Codenum(buf, pos) == (v, pos + |ExpGolomb(v)|)
  {
    hide Extracted, BitsValue, Pow2, ExpGolomb, Unary, Log2, Holds;
    CodeLayout(buf, pos, v);
    var m := Log2(v + 1);
    LogOfInt(v + 1);
    var at := pos + m + 1;
    ExtractedIsExact(buf, at, m);
    assert Pow2(m) - 1 + Extracted(buf, at, m) == v;
    assert v % TWO_32 == v;
  }

  lemma LogOfInt(x: nat)
    requires 0 < x < 0x8000_0000
    ensures Log2(x) < 31
  {
    Pow2Of32();
    assert Pow2(32) == 2 * Pow2(31);
    SmallLog(x, 31);
  }

  /** In particular for every value below 2^26 - 1, wherever the code starts. */
  lemma SmallCodenumRoundTrip(buf: seq<byte>, pos: nat, v: nat)
    requires v < 0x400_0000 - 1 && Holds(buf, pos, ExpGolomb(v))
    ensures Unary(buf, pos) < 32 && Codenum(buf, pos) == (v, pos + |ExpGolomb(v)|)
  {
    assert Pow2(26) == 0x400_0000 by {
      Pow2Add(13, 13);
      assert Pow2(13) == 0x2000 by {
        assert Pow2(5) == 32 && Pow2(9) == 512;
      }
    }
    SmallLog(v + 1, 26);
    hide Pow2, ExpGolomb, Log2;
    CodenumRoundTrip(buf, pos, v);
  }

  /** The signed codes: reading undoes the mapping of section 9.1.1 for |s| < 2^25. */
  lemma SignedRoundTrip(buf: seq<byte>, pos: nat, s: int)
    requires -0x200_0000 < s < 0x200_0000 && Holds(buf, pos, ExpGolomb(SignedToCodenum(s)))
    ensures Unary(buf, pos) < 32
    ensures SignedOf(Codenum(buf, pos).0) == s && Codenum(buf, pos).1 == pos + |ExpGolomb(SignedToCodenum(s))|
  {
    hide Holds, ExpGolomb, Unary, Codenum;
    SmallCodenumRoundTrip(buf, pos, SignedToCodenum(s));
  }

  lemma SmallLog(x: nat, n: nat)
    requires 0 < x < Pow2(n)
    ensures Log2(x) < n
  {
    var m := Log2(x);
    if m >= n {
      Pow2Add(n, m - n);
      MulAtLeast(Pow2(n), Pow2(m - n));
    }
  }

  /** Main result: a code whose suffix is cut off by the end of the data, or that is nothing but
      zeros to the end, reads as the least value with its number of leading zeros, and the bits
      behind the prefix stay unread. */
  lemma CodeRunsOut(buf: seq<byte>, pos: nat, z: nat)
    requires z < 32 && pos + z <= 8 * |buf| && forall i | pos <= i < pos + z :: BitAt(buf, i) == 0
    requires pos + z < 8 * |buf| ==> BitAt(buf, pos + z) == 1 && pos + 2 * z + 1 > 8 * |buf|
    requires pos + z == 8 * |buf| ==> z > 0
    ensures var next := if pos + z < 8 * |buf| then pos + z + 1 else pos + z;
            Unary(buf, pos) == z && Codenum(buf, pos) == (Pow2(z) - 1, next)
  {
    hide BitAt, Pow2, Extracted, Unary;
    UnaryOfRun(buf, pos, z);
    Pow2Add(z, 31 - z);
    Pow2Of31();
    MulAtLeast(Pow2(z), Pow2(31 - z));
  }

  lemma Pow2Of31()
    ensures Pow2(31) == 0x8000_0000
  {
    Pow2Of32();
  }

  lemma {:induction false} UnaryOfRun(buf: seq<byte>, pos: nat, z: nat)
    requires pos + z <= 8 * |buf| && forall i | pos <= i < pos + z :: BitAt(buf, i) == 0
    requires pos + z < 8 * |buf| ==> BitAt(buf, pos + z) == 1
    ensures Unary(buf, pos) == z
    decreases z
  {
    hide BitAt;
    if z > 0 {
      UnaryOfRun(buf, pos + 1, z - 1);
    }
  }
}
