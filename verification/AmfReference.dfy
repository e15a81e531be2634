/** A reader for whole AMF0 values, numbers and objects inside objects included (sections 2.2 to
    2.5 of the AMF 0 specification), for what `AMFEncoder` writes. */
module AmfReference {
  import opened Bytes
  import opened Amf

  /** Markers: 0 for a number, 2 for a string, 3 for an object. */
  function ReadValue(s: seq<byte>): (r: Option<(Value, seq<byte>)>)
    ensures r.Some? ==> |r.value.1| < |s|
    decreases |s|, 0
  {
    if s == [] then None
    else if s[0] == 2 then
      if TakeSized(s[1..]) == None then None else Some((Str(TakeSized(s[1..]).value.0), TakeSized(s[1..]).value.1))
    else if s[0] == 0 then
      if |s| < 9 then None else Some((Num(LoadBe32(s[1..]) * TWO_32 + LoadBe32(s[1..][4..])), s[9..]))
    else if s[0] == 3 then
      if ReadProperties(s[1..]) == None then None
      else Some((Object(ReadProperties(s[1..]).value.0), ReadProperties(s[1..]).value.1))
    else None
  }

  /** Names and values, up to an empty name and the marker 9. */
  function ReadProperties(s: seq<byte>): (r: Option<(seq<Entry>, seq<byte>)>)
    ensures r.Some? ==> |r.value.1| < |s|
    decreases |s|, 1
  {
    if TakeSized(s) == None then None else
    var (key, rest) := TakeSized(s).value;
    if key == [] then
      if rest == [] || rest[0] != 9 then None else Some(([], rest[1..]))
    else if ReadValue(rest) == None then None else
    var (v, more) := ReadValue(rest).value;
    if ReadProperties(more) == None then None else
    Some(([Entry(key, v)] + ReadProperties(more).value.0, ReadProperties(more).value.1))
  }

  /** The value with its strings cut at their first NUL. */
  function Cut(v: Value): Value {
    match v
    case Str(s) => Str(CStr(s))
    case Object(es) => Object(CutEntries(es))
    case _ => v
  }

  function CutEntries(es: seq<Entry>): seq<Entry> {
    if es == [] then [] else [Entry(es[0].key, Cut(es[0].value))] + CutEntries(es[1..])
  }

  /** Lengths fit, names are not empty, and there is no value of a type that is left out. */
  predicate Writable(v: Value) {
    match v
    case Str(s) => |CStr(s)| < 0x1_0000
    case Num(_) => true
    case Object(es) => AllWritable(es)
    case Other => false
  }

  predicate AllWritable(es: seq<Entry>) {
    es == [] || (0 < |es[0].key| < 0x1_0000 && Writable(es[0].value) && AllWritable(es[1..]))
  }

  /** Main result: every value, objects in objects and numbers in them included, is read back,
      with its entries in order, and what follows it is untouched. */
  lemma {:induction false} ValueRoundTrip(v: Value, tail: seq<byte>)
    requires Writable(v)
    ensures ReadValue(EncodeValue(v) + tail) == Some((Cut(v), tail))
    decreases v
  {
    hide TakeSized, SetBe16, CStr, EncodeObject, CutEntries, ReadProperties, LoadBe32, SetBe32, AllWritable, EncodeKey;
    match v
    case Str(b) =>
      StringRoundTripIff(b, tail);
    case Num(bits) =>
      NumberRoundTrip(bits, tail);
    case Object(es) =>
      PropertiesRoundTrip(es, tail);
      ObjectInFront(es, tail);
  }

  lemma ObjectInFront(es: seq<Entry>, tail: seq<byte>)
    ensures var s := EncodeObject(es) + tail;
            s != [] && s[0] == 3 && s[1..] == EncodeEntries(es) + (EncodeKey([]) + ([AMF_OBJECT_END] + tail))
  {
    hide EncodeEntries, EncodeKey;
  }

  lemma {:induction false} PropertiesRoundTrip(es: seq<Entry>, tail: seq<byte>)
    requires AllWritable(es)
    ensures ReadProperties(EncodeEntries(es) + (EncodeKey([]) + ([AMF_OBJECT_END] + tail))) == Some((CutEntries(es), tail))
    decreases es
  {
    hide TakeSized, EncodeValue, ReadValue, Cut, EncodeKey;
    var last := [AMF_OBJECT_END] + tail;
    var end := EncodeKey([]) + last;
    if es == [] {
      assert EncodeEntries(es) + end == end;
      EndInFront(last);
    } else {
      var e, more := es[0], es[1..];
      var rest := EncodeEntries(more) + end;
      assert es == [e] + more;
      EntriesCons(e, more, end);
      RawKeyInFront(e.key, EncodeValue(e.value) + rest);
      ValueRoundTrip(e.value, rest);
      PropertiesRoundTrip(more, tail);
    }
  }
}
