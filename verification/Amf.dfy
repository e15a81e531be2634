/** AMF0: `AMFEncoder` and `AMFDecoder`. Strings are bytes; a number is its 64-bit pattern. */
module Amf {
  import opened Bytes
  import opened FlatBuffers

  const AMF_NUMBER: byte := 0
  const AMF_STRING: byte := 2
  const AMF_OBJECT: byte := 3
  const AMF_NULL: byte := 5
  const AMF_OBJECT_END: byte := 9
  const AMF_SWITCH_3: byte := 0x11

  type Pattern = x: int | 0 <= x < TWO_64

  /** `AMFValue`; `Other` are the types that the encoder logs and leaves out. */
  datatype Value = Str(bytes: seq<byte>) | Num(bits: Pattern) | Object(entries: seq<Entry>) | Other

  datatype Entry = Entry(key: seq<byte>, value: Value)

  /** A string as `c_str` shows it: up to the first NUL. */
  function CStr(s: seq<byte>): (r: seq<byte>)
    ensures r <= s && 0 !in r && (0 !in s ==> r == s) && (|r| < |s| ==> s[|r|] == 0)
  {
    if s == [] || s[0] == 0 then [] else [s[0]] + CStr(s[1..])
  }

  // ---------------------------------------------------------------- encoding

  function EncodeKey(k: seq<byte>): seq<byte> {
    SetBe16(|k|) + k
  }

  function EncodeString(s: seq<byte>): seq<byte> {
    [AMF_STRING] + EncodeKey(CStr(s))
  }

  function EncodeNumber(bits: Pattern): seq<byte> {
    [AMF_NUMBER] + (SetBe32(bits / TWO_32) + SetBe32(bits % TWO_32))
  }

  function EncodeValue(v: Value): seq<byte> {
    match v
    case Str(s) => EncodeString(s)
    case Num(bits) => EncodeNumber(bits)
    case Object(es) => EncodeObject(es)
    case Other => []
  }

  function EncodeObject(es: seq<Entry>): seq<byte>
    decreases es, 1
  {
    [AMF_OBJECT] + (EncodeEntries(es) + (EncodeKey([]) + [AMF_OBJECT_END]))
  }

  function EncodeEntries(es: seq<Entry>): seq<byte>
    decreases es, 0
  {
    if es == [] then [] else EncodeKey(es[0].key) + (EncodeValue(es[0].value) + EncodeEntries(es[1..]))
  }

  // ---------------------------------------------------------------- decoding

  /** Each loader returns what it reads and what follows; None is a thrown exception. */
  function Marked(marker: byte, s: seq<byte>): Option<seq<byte>> {
    if s != [] && s[0] == marker then Some(s[1..]) else None
  }

  function LoadString(s: seq<byte>): (r: Option<(seq<byte>, seq<byte>)>)
    ensures r.Some? ==> |r.value.1| < |s|
  {
    if Marked(AMF_STRING, s) == None then None else TakeSized(s[1..])
  }

  function LoadNumber(s: seq<byte>): Option<(Pattern, seq<byte>)> {
    if Marked(AMF_NUMBER, s) == None || |s| < 9 then None
    else Some((LoadBe32(s[1..]) * TWO_32 + LoadBe32(s[1..][4..]), s[9..]))
  }

  /** The entries up to the empty key. `set` keeps the first value of a key, and an AMF string
      ends at its first NUL. */
  function LoadEntries(s: seq<byte>): Option<(map<seq<byte>, seq<byte>>, seq<byte>)>
    decreases |s|
  {
    if TakeSized(s) == None then None else
    var (key, r) := TakeSized(s).value;
    if key == [] then Some((map[], r)) else
    if LoadString(r) == None then None else
    var (value, r2) := LoadString(r).value;
    if LoadEntries(r2) == None then None else
    var (m, rest) := LoadEntries(r2).value;
    Some((m[key := CStr(value)], rest))
  }

  function LoadObject(s: seq<byte>): Option<(map<seq<byte>, seq<byte>>, seq<byte>)> {
    if Marked(AMF_OBJECT, s) == None || LoadEntries(s[1..]) == None then None else
    var (m, r) := LoadEntries(s[1..]).value;
    if Marked(AMF_OBJECT_END, r) == None then None else Some((m, r[1..]))
  }

  // ---------------------------------------------------------------- round trips

  /** Main result: of a string that the 16-bit length can count, all up to its first NUL comes
      back, and of no other. */
  lemma StringRoundTripIff(s: seq<byte>, tail: seq<byte>)
    ensures LoadString(EncodeString(s) + tail) == Some((CStr(s), tail)) <==> |CStr(s)| < 0x1_0000
  {
    hide TakeSized, SetBe16, CStr;
    var c := CStr(s);
    assert (EncodeString(s) + tail)[1..] == SetBe16(|c|) + c + tail;
    if |c| < 0x1_0000 {
      TakeSizedBack(c, tail);
    } else {
      TakenIsShort(SetBe16(|c|) + c + tail);
    }
  }

  /** A two-byte length counts fewer than 2^16 bytes. */
  lemma TakenIsShort(s: seq<byte>)
    ensures TakeSized(s).Some? ==> |TakeSized(s).value.0| < 0x1_0000
  {
  }

  /** Every 64-bit pattern comes back. */
  lemma NumberRoundTrip(bits: Pattern, tail: seq<byte>)
    ensures LoadNumber(EncodeNumber(bits) + tail) == Some((bits, tail))
  {
    var hi, lo := SetBe32(bits / TWO_32), SetBe32(bits % TWO_32);
    var s := EncodeNumber(bits) + tail;
    assert s[1..] == hi + (lo + tail) && s[1..][4..] == lo + tail && s[9..] == tail;
    hide SetBe32, LoadBe32;
    Word32RoundTrip(bits / TWO_32, lo + tail);
    Word32RoundTrip(bits % TWO_32, tail);
    PatternHalves(bits);
  }

  lemma PatternHalves(bits: Pattern)
    ensures bits / TWO_32 % TWO_32 == bits / TWO_32 && bits % TWO_32 % TWO_32 == bits % TWO_32
    ensures bits / TWO_32 * TWO_32 + bits % TWO_32 == bits
  {
  }

  /** An entry the wire format has room for. */
  predicate Fits(e: Entry) {
    && 0 < |e.key| < 0x1_0000
    && (e.value.Str? ==> |CStr(e.value.bytes)| < 0x1_0000)
    && !e.value.Other?
  }

  predicate AllFit(es: seq<Entry>) {
    forall i | 0 <= i < |es| :: Fits(es[i])
  }

  predicate AllStrings(es: seq<Entry>) {
    forall i | 0 <= i < |es| :: es[i].value.Str?
  }

  /** The strings as a map; of two entries with one key the first counts. */
  function AsMap(es: seq<Entry>): map<seq<byte>, seq<byte>>
    requires AllStrings(es)
  {
    if es == [] then map[] else AsMap(es[1..])[es[0].key := CStr(es[0].value.bytes)]
  }

  /** The value under a key is that of the first entry with the key. */
  lemma {:induction false} FirstValueWins(es: seq<Entry>, i: nat)
    requires AllStrings(es) && i < |es| && forall j | 0 <= j < i :: es[j].key != es[i].key
    ensures es[i].key in AsMap(es) && AsMap(es)[es[i].key] == CStr(es[i].value.bytes)
  {
    hide CStr;
    if i > 0 {
      FirstValueWins(es[1..], i - 1);
    }
  }

  lemma EntryInFront(e: Entry, rest: seq<byte>)
    requires Fits(e)
    ensures TakeSized(EncodeKey(e.key) + (EncodeValue(e.value) + rest)) == Some((e.key, EncodeValue(e.value) + rest))
    ensures LoadString(EncodeValue(e.value) + rest) == if e.value.Str? then Some((CStr(e.value.bytes), rest)) else None
  {
    hide TakeSized, SetBe16, EncodeEntries;
    TakeSizedBack(e.key, EncodeValue(e.value) + rest);
    if e.value.Str? {
      StringRoundTripIff(e.value.bytes, rest);
    }
  }

  lemma {:induction false} EntriesRoundTrip(es: seq<Entry>, tail: seq<byte>)
    requires AllFit(es)
    ensures LoadEntries(EncodeEntries(es) + (EncodeKey([]) + tail)) == if AllStrings(es) then Some((AsMap(es), tail)) else None
    decreases |es|
  {
    hide TakeSized, EncodeKey, EncodeValue, LoadString, CStr;
    var end := EncodeKey([]) + tail;
    if es == [] {
      assert EncodeEntries(es) + end == end;
      EndInFront(tail);
    } else {
      var e, more := es[0], es[1..];
      var rest := EncodeEntries(more) + end;
      EntryInFront(e, rest);
      EntriesRoundTrip(more, tail);
      EntriesCons(e, more, end);
      assert es == [e] + more;
      assert AllStrings(es) <==> e.value.Str? && AllStrings(more);
    }
  }

  lemma EntriesCons(e: Entry, more: seq<Entry>, end: seq<byte>)
    ensures EncodeEntries([e] + more) + end == EncodeKey(e.key) + (EncodeValue(e.value) + (EncodeEntries(more) + end))
  {
    hide EncodeKey, EncodeValue;
    assert ([e] + more)[1..] == more;
  }

  lemma EndInFront(tail: seq<byte>)
    ensures TakeSized(EncodeKey([]) + tail) == Some(([], tail))
  {
    TakeSizedBack([], tail);
    assert EncodeKey([]) + tail == SetBe16(0) + [] + tail;
  }

  /** Main result: an encoded object is read back, exactly up to its end marker, if and only
      if all its values are strings. */
  lemma ObjectRoundTripIff(es: seq<Entry>, tail: seq<byte>)
    requires AllFit(es)
    ensures LoadObject(EncodeObject(es) + tail) == if AllStrings(es) then Some((AsMap(es), tail)) else None
  {
    hide EncodeEntries, EncodeKey, LoadEntries, AsMap, Fits;
    var end := [AMF_OBJECT_END] + tail;
    var s := EncodeObject(es) + tail;
    EntriesRoundTrip(es, end);
    assert s[1..] == EncodeEntries(es) + (EncodeKey([]) + end);
    assert end[1..] == tail;
  }

  /** The map says of every entry what a string says that is cut at its first NUL, and of no
      other key anything. */
  ghost predicate Represents(m: map<seq<byte>, seq<byte>>, es: seq<Entry>) {
    && (forall i | 0 <= i < |es| :: IsEntry(m, es[i]))
    && (forall k | k in m :: exists i :: 0 <= i < |es| && es[i].key == k)
  }

  predicate IsEntry(m: map<seq<byte>, seq<byte>>, e: Entry) {
    e.value.Str? && e.key in m && m[e.key] == CStr(e.value.bytes)
  }

  /** As in the map an object is kept in. */
  predicate DistinctKeys(es: seq<Entry>) {
    forall i, j | 0 <= i < j < |es| :: es[i].key != es[j].key
  }

  /** Keys and values that the object decoder can give. */
  predicate ShortEntries(m: map<seq<byte>, seq<byte>>) {
    forall k | k in m :: 0 < |k| < 0x1_0000 && |m[k]| < 0x1_0000
  }

  lemma {:induction false} LoadedIsShort(s: seq<byte>)
    ensures LoadEntries(s).Some? ==> ShortEntries(LoadEntries(s).value.0)
    decreases |s|
  {
    hide TakeSized;
    if LoadEntries(s).Some? && TakeSized(s).value.0 != [] {
      var (key, r) := TakeSized(s).value;
      TakenIsShort(s);
      TakenIsShort(r[1..]);
      LoadedIsShort(LoadString(r).value.1);
    }
  }

  lemma {:induction false} AsMapRepresents(es: seq<Entry>)
    requires AllStrings(es) && DistinctKeys(es)
    ensures Represents(AsMap(es), es)
    decreases |es|
  {
    hide CStr;
    AsMapKeys(es);
    if es != [] {
      var more := es[1..];
      AsMapRepresents(more);
      forall i | 0 <= i < |es|
        ensures IsEntry(AsMap(es), es[i])
      {
        if i > 0 {
          assert IsEntry(AsMap(more), more[i - 1]);
        }
      }
    }
  }

  /** Main result: an encoded object, whatever is in it, is read back exactly and up to its end
      marker if and only if every value is a string, and every key and value has a length the
      format has room for. */
  lemma ObjectArrivesIff(es: seq<Entry>, tail: seq<byte>)
    requires DistinctKeys(es)
    ensures var r := LoadObject(EncodeObject(es) + tail);
            (r.Some? && r.value.1 == tail && Represents(r.value.0, es)) <==> AllFit(es) && AllStrings(es)
  {
    hide LoadEntries, EncodeObject, AsMap, CStr;
    var s := EncodeObject(es) + tail;
    if AllFit(es) && AllStrings(es) {
      ObjectRoundTripIff(es, tail);
      AsMapRepresents(es);
    } else if LoadObject(s).Some? {
      LoadedIsShort(s[1..]);
      ShortFits(LoadObject(s).value.0, es);
    }
  }

  lemma ShortFits(m: map<seq<byte>, seq<byte>>, es: seq<Entry>)
    requires ShortEntries(m)
    ensures Represents(m, es) ==> AllFit(es) && AllStrings(es)
  {
    hide CStr;
    if Represents(m, es) {
      forall i | 0 <= i < |es|
        ensures Fits(es[i]) && es[i].value.Str?
      {
        assert IsEntry(m, es[i]);
      }
    }
  }

  /** With one entry per key and no NUL in a value, the map is the object itself. */
  lemma {:induction false} AsMapExact(es: seq<Entry>, i: nat)
    requires AllStrings(es) && i < |es|
    requires forall j, k | 0 <= j < k < |es| :: es[j].key != es[k].key
    requires 0 !in es[i].value.bytes
    ensures es[i].key in AsMap(es) && AsMap(es)[es[i].key] == es[i].value.bytes
    ensures |AsMap(es)| == |es|
    decreases |es|
  {
    hide CStr;
    var more := es[1..];
    AsMapKeys(es);
    AsMapSize(es);
    CStrWhole(es[i].value.bytes);
    if i > 0 {
      AsMapExact(more, i - 1);
    }
  }

  lemma CStrWhole(s: seq<byte>)
    requires 0 !in s
    ensures CStr(s) == s
  {
  }

  lemma {:induction false} AsMapKeys(es: seq<Entry>)
    requires AllStrings(es)
    ensures forall k :: k in AsMap(es) <==> exists j :: 0 <= j < |es| && es[j].key == k
    decreases |es|
  {
    hide CStr;
    if es != [] {
      var more := es[1..];
      AsMapKeys(more);
      forall k
        ensures k in AsMap(es) <==> exists j :: 0 <= j < |es| && es[j].key == k
      {
        if k in AsMap(more) {
          var j :| 0 <= j < |more| && more[j].key == k;
          assert es[j + 1].key == k;
        }
        if j :| 0 <= j < |es| && es[j].key == k {
          assert j > 0 ==> more[j - 1].key == k;
        }
      }
    }
  }

  lemma {:induction false} AsMapSize(es: seq<Entry>)
    requires AllStrings(es) && forall j, k | 0 <= j < k < |es| :: es[j].key != es[k].key
    ensures |AsMap(es)| == |es|
    decreases |es|
  {
    hide CStr;
    if es != [] {
      var more := es[1..];
      AsMapSize(more);
      AsMapKeys(more);
      assert forall j | 0 <= j < |more| :: more[j] == es[j + 1];
      assert es[0].key !in AsMap(more);
    }
  }

  // ---------------------------------------------------------------- and nothing else is read

  /** Main result: a string is loaded from exactly the bytes that have the marker, a length and
      that many bytes in front. */
  lemma LoadStringIff(s: seq<byte>, b: seq<byte>, rest: seq<byte>)
    ensures LoadString(s) == Some((b, rest)) <==> |b| < 0x1_0000 && s == [2] + (SetBe16(|b|) + b + rest)
  {
    hide TakeSized, SetBe16;
    if LoadString(s) == Some((b, rest)) {
      TakeSizedParts(s[1..]);
      assert s == [s[0]] + s[1..];
    }
    if |b| < 0x1_0000 && s == [2] + (SetBe16(|b|) + b + rest) {
      TakeSizedBack(b, rest);
      assert s[1..] == SetBe16(|b|) + b + rest;
    }
  }

  /** Main result: a number is loaded from exactly the bytes that encode it. */
  lemma LoadNumberIff(s: seq<byte>, bits: Pattern, rest: seq<byte>)
    ensures LoadNumber(s) == Some((bits, rest)) <==> s == EncodeNumber(bits) + rest
  {
    hide LoadBe32, SetBe32;
    if LoadNumber(s) == Some((bits, rest)) {
      var hi, lo := s[1..], s[1..][4..];
      Word32Bytes(hi);
      Word32Bytes(lo);
      DivModUnique(bits, TWO_32, LoadBe32(hi), LoadBe32(lo));
      assert s == [s[0]] + (hi[..4] + lo[..4]) + rest;
    }
    if s == EncodeNumber(bits) + rest {
      NumberRoundTrip(bits, rest);
    }
  }

  lemma ObjectAppended(start: seq<byte>, es: seq<Entry>)
    ensures start + [AMF_OBJECT] + EncodeEntries(es) + EncodeKey([]) + [AMF_OBJECT_END] == start + EncodeObject(es)
  {
    hide EncodeEntries, EncodeKey;
  }

  /** String entries as they stand in the bytes, NULs included. */
  function RawEntries(es: seq<Entry>): seq<byte>
    requires AllStrings(es)
  {
    if es == [] then []
    else EncodeKey(es[0].key) + (([AMF_STRING] + EncodeKey(es[0].value.bytes)) + RawEntries(es[1..]))
  }

  predicate RawFits(e: Entry) {
    0 < |e.key| < 0x1_0000 && e.value.Str? && |e.value.bytes| < 0x1_0000
  }

  predicate AllRawFit(es: seq<Entry>) {
    forall i | 0 <= i < |es| :: RawFits(es[i])
  }

  lemma RawStringInFront(b: seq<byte>, rest: seq<byte>)
    requires |b| < 0x1_0000
    ensures LoadString(([AMF_STRING] + EncodeKey(b)) + rest) == Some((b, rest))
  {
    hide SetBe16;
    assert ([AMF_STRING] + EncodeKey(b)) + rest == [2] + (SetBe16(|b|) + b + rest);
    LoadStringIff(([AMF_STRING] + EncodeKey(b)) + rest, b, rest);
  }

  lemma {:induction false} LoadsRaw(es: seq<Entry>, tail: seq<byte>)
    requires AllRawFit(es) && AllStrings(es)
    ensures LoadEntries(RawEntries(es) + (EncodeKey([]) + tail)) == Some((AsMap(es), tail))
    decreases |es|
  {
    hide TakeSized, SetBe16, LoadString, LoadEntries, CStr, EncodeKey;
    var end := EncodeKey([]) + tail;
    if es == [] {
      assert RawEntries(es) + end == end;
      EndLoaded(tail);
    } else {
      var e, more := es[0], es[1..];
      var value := [AMF_STRING] + EncodeKey(e.value.bytes);
      var rest := RawEntries(more) + end;
      RawKeyInFront(e.key, value + rest);
      RawStringInFront(e.value.bytes, rest);
      LoadsRaw(more, tail);
      EntryLoaded(EncodeKey(e.key) + (value + rest), value + rest, e.key, e.value.bytes, rest);
      Regroup(EncodeKey(e.key), value, RawEntries(more), end);
    }
  }

  lemma Regroup(a: seq<byte>, b: seq<byte>, c: seq<byte>, d: seq<byte>)
    ensures (a + (b + c)) + d == a + (b + (c + d))
  {
  }

  lemma EndLoaded(tail: seq<byte>)
    ensures LoadEntries(EncodeKey([]) + tail) == Some((map[], tail))
  {
    hide TakeSized, EncodeKey, LoadString;
    EndInFront(tail);
  }

  lemma EntryLoaded(s: seq<byte>, r: seq<byte>, key: seq<byte>, b: seq<byte>, rest: seq<byte>)
    requires key != [] && TakeSized(s) == Some((key, r)) && LoadString(r) == Some((b, rest)) && LoadEntries(rest).Some?
    ensures LoadEntries(s) == Some((LoadEntries(rest).value.0[key := CStr(b)], LoadEntries(rest).value.1))
  {
    hide TakeSized, LoadString, CStr;
  }

  lemma RawKeyInFront(key: seq<byte>, rest: seq<byte>)
    requires |key| < 0x1_0000
    ensures TakeSized(EncodeKey(key) + rest) == Some((key, rest))
  {
    TakeSizedBack(key, rest);
  }

  /** What entries were loaded from. */
  lemma {:induction false} LoadedFromRaw(s: seq<byte>) returns (es: seq<Entry>)
    requires LoadEntries(s).Some?
    ensures AllStrings(es) && AllRawFit(es) && LoadEntries(s).value.0 == AsMap(es)
    ensures s == RawEntries(es) + (EncodeKey([]) + LoadEntries(s).value.1)
    decreases |s|
  {
    hide SetBe16, TakeSized, LoadString, CStr;
    TakeSizedParts(s);
    var (key, r) := TakeSized(s).value;
    if key == [] {
      es := [];
      assert s == [] + (EncodeKey([]) + r);
    } else {
      var (value, r2) := LoadString(r).value;
      LoadStringIff(r, value, r2);
      var more := LoadedFromRaw(r2);
      es := [Entry(key, Str(value))] + more;
      assert es[1..] == more;
      Regrouped(key, value, RawEntries(more), EncodeKey([]) + LoadEntries(r2).value.1);
    }
  }

  lemma Regrouped(key: seq<byte>, value: seq<byte>, more: seq<byte>, end: seq<byte>)
    ensures SetBe16(|key|) + key + ([2] + (SetBe16(|value|) + value + (more + end)))
            == EncodeKey(key) + (([AMF_STRING] + EncodeKey(value)) + more) + end
  {
    hide SetBe16;
  }

  ghost predicate IsObject(s: seq<byte>, m: map<seq<byte>, seq<byte>>, rest: seq<byte>) {
    exists es :: ObjectParts(s, es, m, rest)
  }

  predicate ObjectParts(s: seq<byte>, es: seq<Entry>, m: map<seq<byte>, seq<byte>>, rest: seq<byte>) {
    AllStrings(es) && AllRawFit(es) && m == AsMap(es) && s == [3] + (RawEntries(es) + (EncodeKey([]) + ([9] + rest)))
  }

  /** Main result: an object is loaded from exactly the bytes that have the marker, keys with
      strings, the empty key and the end marker in front; of a key that comes twice the first
      value counts, and values end at their first NUL. */
  lemma LoadObjectIff(s: seq<byte>, m: map<seq<byte>, seq<byte>>, rest: seq<byte>)
    ensures LoadObject(s) == Some((m, rest)) <==> IsObject(s, m, rest)
  {
    hide LoadEntries, RawEntries, AsMap, EncodeKey;
    if LoadObject(s) == Some((m, rest)) {
      var es := LoadedFromRaw(s[1..]);
      var r := LoadEntries(s[1..]).value.1;
      assert r == [9] + rest && s == [3] + s[1..];
      assert ObjectParts(s, es, m, rest);
    }
    if IsObject(s, m, rest) {
      var es :| ObjectParts(s, es, m, rest);
      LoadsRaw(es, [9] + rest);
      assert s[1..] == RawEntries(es) + (EncodeKey([]) + ([9] + rest));
      assert ([9] + rest)[1..] == rest;
    }
  }

  // ---------------------------------------------------------------- commands

  /** What a command is made of. */
  datatype Item = Text(bytes: seq<byte>) | Number(bits: Pattern) | Null | Strings(entries: seq<Entry>)

  /** What each load is asked for, and what it gives. */
  datatype Kind = TextKind | NumberKind | NullKind | ObjectKind

  datatype Loaded = LoadedText(bytes: seq<byte>) | LoadedNumber(bits: Pattern) | LoadedNull
                  | LoadedObject(strings: map<seq<byte>, seq<byte>>)

  function EncodeItem(i: Item): seq<byte> {
    match i
    case Text(s) => EncodeString(s)
    case Number(bits) => EncodeNumber(bits)
    case Null => [AMF_NULL]
    case Strings(es) => EncodeObject(es)
  }

  function LoadItem(k: Kind, s: seq<byte>): Option<(Loaded, seq<byte>)> {
    match k
    case TextKind => if LoadString(s) == None then None else Some((LoadedText(LoadString(s).value.0), LoadString(s).value.1))
    case NumberKind => if LoadNumber(s) == None then None else Some((LoadedNumber(LoadNumber(s).value.0), LoadNumber(s).value.1))
    case NullKind => if Marked(AMF_NULL, s) == None then None else Some((LoadedNull, s[1..]))
    case ObjectKind => if LoadObject(s) == None then None else Some((LoadedObject(LoadObject(s).value.0), LoadObject(s).value.1))
  }

  function EncodeItems(items: seq<Item>): seq<byte> {
    if items == [] then [] else EncodeItem(items[0]) + EncodeItems(items[1..])
  }

  function LoadItems(kinds: seq<Kind>, s: seq<byte>): Option<(seq<Loaded>, seq<byte>)>
    decreases |kinds|
  {
    if kinds == [] then Some(([], s)) else
    if LoadItem(kinds[0], s) == None then None else
    var (x, r) := LoadItem(kinds[0], s).value;
    if LoadItems(kinds[1..], r) == None then None else
    var (xs, rest) := LoadItems(kinds[1..], r).value;
    Some(([x] + xs, rest))
  }

  function KindOf(i: Item): Kind {
    match i case Text(_) => TextKind case Number(_) => NumberKind case Null => NullKind case Strings(_) => ObjectKind
  }

  predicate ItemFits(i: Item) {
    match i
    case Text(s) => |CStr(s)| < 0x1_0000
    case Strings(es) => AllFit(es) && AllStrings(es)
    case _ => true
  }

  function Meant(i: Item): Loaded
    requires ItemFits(i)
  {
    match i
    case Text(s) => LoadedText(CStr(s))
    case Number(bits) => LoadedNumber(bits)
    case Null => LoadedNull
    case Strings(es) => LoadedObject(AsMap(es))
  }

  lemma ItemRoundTrip(i: Item, tail: seq<byte>)
    requires ItemFits(i)
    ensures LoadItem(KindOf(i), EncodeItem(i) + tail) == Some((Meant(i), tail))
  {
    hide LoadString, LoadNumber, LoadObject, EncodeString, EncodeNumber, EncodeObject, AsMap;
    match i
    case Text(s) => StringRoundTripIff(s, tail);
    case Number(bits) => NumberRoundTrip(bits, tail);
    case Null =>
    case Strings(es) => ObjectRoundTripIff(es, tail);
  }

  /** A whole command, loaded item by item as its handler does, comes back, and what follows
      it is untouched. */
  lemma {:induction false} CommandRoundTrip(items: seq<Item>, kinds: seq<Kind>, tail: seq<byte>)
    requires |kinds| == |items| && forall i | 0 <= i < |items| :: ItemFits(items[i]) && kinds[i] == KindOf(items[i])
    ensures LoadItems(kinds, EncodeItems(items) + tail).Some?
    ensures var (xs, rest) := LoadItems(kinds, EncodeItems(items) + tail).value;
            rest == tail && |xs| == |items| && forall i | 0 <= i < |items| :: xs[i] == Meant(items[i])
    decreases |items|
  {
    hide LoadItem, EncodeItem, Meant, ItemFits;
    if items == [] {
      assert EncodeItems(items) + tail == tail;
    } else {
      var rest := EncodeItems(items[1..]) + tail;
      assert EncodeItems(items) + tail == EncodeItem(items[0]) + rest;
      ItemRoundTrip(items[0], rest);
      CommandRoundTrip(items[1..], kinds[1..], tail);
    }
  }

  /** What was loaded is what the item says. */
  ghost predicate IsItem(x: Loaded, i: Item) {
    match i
    case Text(s) => x == LoadedText(CStr(s))
    case Number(bits) => x == LoadedNumber(bits)
    case Null => x == LoadedNull
    case Strings(es) => x.LoadedObject? && Represents(x.strings, es)
  }

  predicate ShortLoaded(x: Loaded) {
    match x
    case LoadedText(s) => |s| < 0x1_0000
    case LoadedObject(m) => ShortEntries(m)
    case _ => true
  }

  lemma ItemIsShort(k: Kind, s: seq<byte>)
    ensures LoadItem(k, s).Some? ==> ShortLoaded(LoadItem(k, s).value.0)
  {
    hide TakeSized, LoadEntries, LoadNumber;
    if s != [] {
      TakenIsShort(s[1..]);
      LoadedIsShort(s[1..]);
    }
  }

  lemma {:induction false} ItemsAreShort(kinds: seq<Kind>, s: seq<byte>)
    ensures LoadItems(kinds, s).Some? ==>
              |LoadItems(kinds, s).value.0| == |kinds|
              && forall i | 0 <= i < |kinds| :: ShortLoaded(LoadItems(kinds, s).value.0[i])
    decreases |kinds|
  {
    hide LoadItem, ShortLoaded;
    if kinds != [] {
      ItemIsShort(kinds[0], s);
      if LoadItem(kinds[0], s).Some? {
        ItemsAreShort(kinds[1..], LoadItem(kinds[0], s).value.1);
      }
    }
  }

  lemma ShortItemFits(x: Loaded, i: Item)
    requires ShortLoaded(x)
    ensures IsItem(x, i) ==> ItemFits(i)
  {
    hide CStr, ShortEntries, Represents;
    match i
    case Strings(es) =>
      if x.LoadedObject? {
        ShortFits(x.strings, es);
      }
    case _ =>
  }

  lemma MeantIsItem(i: Item)
    requires ItemFits(i) && (i.Strings? ==> DistinctKeys(i.entries))
    ensures IsItem(Meant(i), i)
  {
    hide CStr, AsMap, Represents, DistinctKeys;
    if i.Strings? {
      AsMapRepresents(i.entries);
    }
  }

  /** Main result: a whole command, loaded item by item as its handler does, comes back and
      leaves what follows it untouched if and only if each of its strings has a length the
      format has room for, and its objects have only such strings in them. */
  lemma CommandArrivesIff(items: seq<Item>, kinds: seq<Kind>, tail: seq<byte>)
    requires |kinds| == |items| && forall i | 0 <= i < |items| :: kinds[i] == KindOf(items[i])
    requires forall i | 0 <= i < |items| && items[i].Strings? :: DistinctKeys(items[i].entries)
    ensures var r := LoadItems(kinds, EncodeItems(items) + tail);
            (r.Some? && r.value.1 == tail && |r.value.0| == |items|
             && forall i | 0 <= i < |items| :: IsItem(r.value.0[i], items[i]))
            <==> forall i | 0 <= i < |items| :: ItemFits(items[i])
  {
    hide LoadItems, EncodeItems, IsItem, ItemFits, Meant, DistinctKeys, ShortLoaded;
    var s := EncodeItems(items) + tail;
    if forall i | 0 <= i < |items| :: ItemFits(items[i]) {
      CommandRoundTrip(items, kinds, tail);
      forall i | 0 <= i < |items|
        ensures IsItem(LoadItems(kinds, s).value.0[i], items[i])
      {
        MeantIsItem(items[i]);
      }
    } else {
      ItemsAreShort(kinds, s);
      forall i | 0 <= i < |items| && LoadItems(kinds, s).Some?
        ensures IsItem(LoadItems(kinds, s).value.0[i], items[i]) ==> ItemFits(items[i])
      {
        ShortItemFits(LoadItems(kinds, s).value.0[i], items[i]);
      }
    }
  }

  // ---------------------------------------------------------------- encoder and decoder

  class AmfEncoder {
    var buf: seq<byte>

    constructor ()
      ensures buf == []
    {
      buf := [];
    }

    method WriteKey(k: seq<byte>)
      modifies this
      ensures buf == old(buf) + EncodeKey(k)
    {
      buf := buf + SetBe16(|k|);
      buf := buf + k;
    }

    method WriteString(s: seq<byte>)
      modifies this
      ensures buf == old(buf) + EncodeString(s)
    {
      buf := buf + [AMF_STRING];
      var c := CStr(s);
      buf := buf + SetBe16(|c|);
      buf := buf + c;
    }

    method WriteNull()
      modifies this
      ensures buf == old(buf) + [AMF_NULL]
    {
      buf := buf + [AMF_NULL];
    }

    method WriteNumber(bits: Pattern)
      modifies this
      ensures buf == old(buf) + EncodeNumber(bits)
    {
      buf := buf + [AMF_NUMBER];
      buf := buf + SetBe32(bits / TWO_32);
      buf := buf + SetBe32(bits % TWO_32);
    }

    method WriteValue(v: Value)
      modifies this
      ensures buf == old(buf) + EncodeValue(v)
      ensures v.Other? ==> buf == old(buf)
      decreases v
    {
      hide EncodeString, EncodeNumber, EncodeKey, EncodeEntries, EncodeObject;
      match v {
        case Str(s) => WriteString(s);
        case Num(bits) => WriteNumber(bits);
        case Object(es) =>
          ghost var start := buf;
          buf := buf + [AMF_OBJECT];
          WriteEntries(es);
          WriteKey([]);
          buf := buf + [AMF_OBJECT_END];
          ObjectAppended(start, es);
        case Other =>
      }
    }

    method WriteEntries(es: seq<Entry>)
      modifies this
      ensures buf == old(buf) + EncodeEntries(es)
      decreases es
    {
      hide EncodeKey, EncodeValue;
      var i := 0;
      while i < |es|
        invariant 0 <= i <= |es|
        invariant buf + EncodeEntries(es[i..]) == old(buf) + EncodeEntries(es)
      {
        ghost var start := buf;
        assert es[i..][0] == es[i] && es[i..][1..] == es[i + 1..];
        WriteKey(es[i].key);
        WriteValue(es[i].value);
        assert buf + EncodeEntries(es[i + 1..]) == start + EncodeEntries(es[i..]);
        i := i + 1;
      }
      assert es[i..] == [];
    }
  }

  class AmfDecoder {
    const buf: FlatBuffer
    var version: nat

    constructor (buf: FlatBuffer, version: nat)
      ensures this.buf == buf && this.version == version
    {
      this.buf, this.version := buf, version;
    }

    method PopFront() returns (x: Option<byte>)
      requires buf.Valid()
      modifies this, buf`readIndex
      ensures buf.Valid() && x == old(buf.PeekUint8())
      ensures buf.Unread() == if x.Some? then old(buf.Unread())[1..] else old(buf.Unread())
      ensures version == if x == Some(AMF_SWITCH_3) && old(version) == 0 then 3 else old(version)
    {
      x := buf.ReadUint8();
      if version == 0 && x == Some(AMF_SWITCH_3) {
        version := 3;
      }
    }

    method ReadString() returns (s: Option<seq<byte>>)
      requires buf.Valid()
      modifies this, buf`readIndex
      ensures buf.Valid()
      ensures s == if LoadString(old(buf.Unread())) == None then None else Some(LoadString(old(buf.Unread())).value.0)
      ensures s.Some? ==> buf.Unread() == LoadString(old(buf.Unread())).value.1
    {
      var marker := PopFront();
      if marker != Some(AMF_STRING) {
        return None;
      }
      s := ReadKey();
    }

    /** A two-byte length and the bytes, without a marker. */
    method ReadKey() returns (s: Option<seq<byte>>)
      requires buf.Valid()
      modifies this, buf`readIndex
      ensures buf.Valid()
      ensures s == if TakeSized(old(buf.Unread())) == None then None else Some(TakeSized(old(buf.Unread())).value.0)
      ensures s.Some? ==> buf.Unread() == TakeSized(old(buf.Unread())).value.1
    {
      var n := buf.ReadUint16();
      if n == None {
        return None;
      }
      s := buf.ToString(n.value);
    }

    method ReadNumber() returns (bits: Option<Pattern>)
      requires buf.Valid()
      modifies this, buf`readIndex
      ensures buf.Valid()
      ensures bits == if LoadNumber(old(buf.Unread())) == None then None else Some(LoadNumber(old(buf.Unread())).value.0)
      ensures bits.Some? ==> buf.Unread() == LoadNumber(old(buf.Unread())).value.1
    {
      hide LoadBe32;
      var marker := PopFront();
      if marker != Some(AMF_NUMBER) {
        return None;
      }
      var word := buf.ReadUint64();
      if word == None {
        return None;
      }
      bits := Some(word.value);
    }

    method ReadObject() returns (m: Option<map<seq<byte>, seq<byte>>>)
      requires buf.Valid()
      modifies this, buf`readIndex
      ensures buf.Valid()
      ensures m == if LoadObject(old(buf.Unread())) == None then None else Some(LoadObject(old(buf.Unread())).value.0)
      ensures m.Some? ==> buf.Unread() == LoadObject(old(buf.Unread())).value.1
    {
      hide LoadEntries;
      var marker := PopFront();
      if marker != Some(AMF_OBJECT) {
        return None;
      }
      var entries := ReadEntries();
      if entries == None {
        return None;
      }
      marker := PopFront();
      if marker != Some(AMF_OBJECT_END) {
        return None;
      }
      m := entries;
    }

    /** The loop of `load_object`. */
    method ReadEntries() returns (m: Option<map<seq<byte>, seq<byte>>>)
      requires buf.Valid()
      modifies this, buf`readIndex
      ensures buf.Valid()
      ensures m == if LoadEntries(old(buf.Unread())) == None then None else Some(LoadEntries(old(buf.Unread())).value.0)
      ensures m.Some? ==> buf.Unread() == LoadEntries(old(buf.Unread())).value.1
    {
      hide TakeSized, LoadString, CStr, LoadEntries;
      ghost var all := buf.Unread();
      var values: map<seq<byte>, seq<byte>> := map[];
      NothingAdded(all);
      while true
        invariant buf.Valid() && LeadsTo(buf.Unread(), values, all)
        decreases |buf.Unread()|
      {
        EntriesStep(buf.Unread(), values, all);
        var key := ReadKey();
        if key == None {
          return None;
        }
        if key.value == [] {
          return Some(values);
        }
        var value := ReadString();
        if value == None {
          return None;
        }
        if key.value !in values {
          values := values[key.value := CStr(value.value)];
        }
      }
    }
  }

  /** Reading on at `s` with `values` behind comes to the same as reading all. */
  ghost predicate LeadsTo(s: seq<byte>, values: map<seq<byte>, seq<byte>>, all: seq<byte>) {
    var r := LoadEntries(s);
    LoadEntries(all) == if r == None then None else Some((r.value.0 + values, r.value.1))
  }

  lemma NothingAdded(s: seq<byte>)
    ensures LeadsTo(s, map[], s)
  {
    hide LoadEntries;
    assert LoadEntries(s).Some? ==> LoadEntries(s).value.0 + map[] == LoadEntries(s).value.0;
  }

  /** One entry: the first value of a key stays. */
  lemma EntriesStep(s: seq<byte>, values: map<seq<byte>, seq<byte>>, all: seq<byte>)
    requires LeadsTo(s, values, all)
    ensures TakeSized(s) == None ==> LoadEntries(all) == None
    ensures TakeSized(s).Some? && TakeSized(s).value.0 == [] ==> LoadEntries(all) == Some((values, TakeSized(s).value.1))
    ensures TakeSized(s).Some? && TakeSized(s).value.0 != [] ==>
              var (key, r) := TakeSized(s).value;
              if LoadString(r) == None then LoadEntries(all) == None
              else LeadsTo(LoadString(r).value.1,
                           if key in values then values else values[key := CStr(LoadString(r).value.0)], all)
  {
    hide TakeSized, LoadString, CStr;
    assert map[] + values == values;
    if TakeSized(s).Some? && TakeSized(s).value.0 != [] && LoadString(TakeSized(s).value.1).Some? {
      var (key, r) := TakeSized(s).value;
      var (value, r2) := LoadString(r).value;
      if LoadEntries(r2).Some? {
        FirstStays(LoadEntries(r2).value.0, values, key, CStr(value));
      }
    }
  }

  lemma FirstStays(m: map<seq<byte>, seq<byte>>, values: map<seq<byte>, seq<byte>>, key: seq<byte>, value: seq<byte>)
    ensures m[key := value] + values == m + if key in values then values else values[key := value]
  {
  }
}
