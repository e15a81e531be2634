/** `network::flat_buffer`: a byte queue kept in one growing array. `Unread()` is the queue;
    every operation is specified by what it does to it. A thrown `runtime_error` is a
    result that says so. */
module FlatBuffers {
  import opened Bytes

  const MAX_CACHE_SIZE := 4 * 1024 * 1024

  class FlatBuffer {
    var data: array<byte>
    var capacity: nat
    var readIndex: nat
    var writeIndex: nat

    var capacityTemp: nat
    var readIndexTemp: nat
    var writeIndexTemp: nat

    ghost predicate Valid()
      reads this
    {
      readIndex <= writeIndex <= capacity == data.Length
    }

    ghost function Unread(): (s: seq<byte>)
      requires Valid()
      reads this, data
    {
      data[readIndex..writeIndex]
    }

    constructor (initialSize: nat)
      ensures Valid() && fresh(data) && capacity == initialSize && readIndex == writeIndex == 0
      ensures Unread() == []
    {
      data := new byte[initialSize];
      capacity := initialSize;
      readIndex, writeIndex := 0, 0;
      capacityTemp, readIndexTemp, writeIndexTemp := 0, 0, 0;
    }

    function UnreadLength(): (n: nat)
      requires Valid()
      reads this, data
      ensures n == |Unread()|
    {
      writeIndex - readIndex
    }

    /** The first unread bytes, as read through `data()`. */
    function Front(len: nat): (s: seq<byte>)
      requires Valid() && len <= UnreadLength()
      reads this, data
      ensures s == Unread()[..len]
    {
      data[readIndex..readIndex + len]
    }

    function WritableBytes(): nat
      requires Valid()
      reads this
    {
      capacity - writeIndex
    }

    // ------------------------------------------------------------ writing

    method Write(bytes: seq<byte>)
      requires Valid()
      modifies this, data
      ensures Valid() && (data == old(data) || fresh(data))
      ensures Unread() == old(Unread()) + bytes
    {
      EnsureWritableBytes(|bytes|);
      forall i | 0 <= i < |bytes| {
        data[writeIndex + i] := bytes[i];
      }
      writeIndex := writeIndex + |bytes|;
    }

    method EnsureWritableBytes(n: nat)
      requires Valid()
      modifies this, data
      ensures Valid() && (data == old(data) || fresh(data))
      ensures Unread() == old(Unread()) && WritableBytes() >= n
      ensures old(WritableBytes()) >= n ==> unchanged(this)
    {
      if WritableBytes() < n {
        Grow(n);
      }
    }

    /** Make room for `len` bytes behind the unread ones, by a bigger array if need be. */
    method Grow(len: nat)
      requires Valid()
      modifies this, data
      ensures Valid() && (data == old(data) || fresh(data))
      ensures Unread() == old(Unread()) && WritableBytes() >= len && readIndex == 0
      ensures capacity == if old(WritableBytes()) < len then 2 * old(capacity) + len else old(capacity)
    {
      if WritableBytes() < len {
        var bigger := 2 * capacity + len;
        var unconsumed := UnreadLength();
        var temp := new byte[bigger];
        forall i | 0 <= i < unconsumed {
          temp[i] := data[readIndex + i];
        }
        readIndex := 0;
        writeIndex := unconsumed;
        capacity := bigger;
        data := temp;
      } else {
        MoveUnreadToBegin();
      }
    }

    method MoveUnreadToBegin()
      requires Valid()
      modifies this, data
      ensures Valid() && data == old(data) && capacity == old(capacity)
      ensures Unread() == old(Unread()) && readIndex == 0
    {
      var unconsumed := UnreadLength();
      forall i | 0 <= i < unconsumed {
        data[i] := data[readIndex + i];
      }
      readIndex := 0;
      writeIndex := unconsumed;
    }

    // ------------------------------------------------------------ consuming

    method ConsumeOrFail(len: nat) returns (ok: bool)
      requires Valid()
      modifies this`readIndex
      ensures Valid() && ok == (len <= old(UnreadLength()))
      ensures Unread() == if ok then old(Unread())[len..] else old(Unread())
      ensures readIndex == old(readIndex) + if ok then len else 0
    {
      ok := len <= UnreadLength();
      if ok {
        readIndex := readIndex + len;
      }
    }

    method SafeConsume(len: nat)
      requires Valid()
      modifies this`readIndex, this`writeIndex
      ensures Valid()
      ensures Unread() == if len <= old(UnreadLength()) then old(Unread())[len..] else []
    {
      if len <= UnreadLength() {
        readIndex := readIndex + len;
      } else {
        readIndex, writeIndex := 0, 0;
      }
    }

    method UnreadBytes(len: nat)
      requires Valid()
      modifies this`readIndex
      ensures Valid() && readIndex == if len > old(readIndex) then 0 else old(readIndex) - len
    {
      if len > readIndex {
        readIndex := 0;
      } else {
        readIndex := readIndex - len;
      }
    }

    function PeekUint8(): (x: Option<byte>)
      requires Valid()
      reads this, data
      ensures x == if |Unread()| < 1 then None else Some(Unread()[0])
    {
      if UnreadLength() < 1 then None else Some(data[readIndex])
    }

    method ReadUint8() returns (x: Option<byte>)
      requires Valid()
      modifies this`readIndex
      ensures Valid() && x == old(PeekUint8())
      ensures Unread() == if x.Some? then old(Unread())[1..] else old(Unread())
    {
      x := PeekUint8();
      if x.Some? {
        var _ := ConsumeOrFail(1);
      }
    }

    function PeekUint16(): (x: Option<nat>)
      requires Valid()
      reads this, data
      ensures x == if |Unread()| < 2 then None else Some(LoadBe16(Unread()))
    {
      if UnreadLength() < 2 then None else Some(data[readIndex] as int * 0x100 + data[readIndex + 1] as int)
    }

    method ReadUint16() returns (x: Option<nat>)
      requires Valid()
      modifies this`readIndex
      ensures Valid() && x == old(PeekUint16())
      ensures Unread() == if x.Some? then old(Unread())[2..] else old(Unread())
    {
      x := PeekUint16();
      if x.Some? {
        var _ := ConsumeOrFail(2);
      }
    }

    function PeekUint32(): (x: Option<uint32>)
      requires Valid()
      reads this, data
      ensures x == if |Unread()| < 4 then None else Some(LoadBe32(Unread()))
    {
      if UnreadLength() < 4 then None else Some(LoadBe32(data[readIndex..readIndex + 4]))
    }

    method ReadUint32() returns (x: Option<uint32>)
      requires Valid()
      modifies this`readIndex
      ensures Valid() && x == old(PeekUint32())
      ensures Unread() == if x.Some? then old(Unread())[4..] else old(Unread())
    {
      x := PeekUint32();
      if x.Some? {
        var _ := ConsumeOrFail(4);
      }
    }

    /** Steps four bytes forward and back again on the way; the buffer ends up as it was. */
    method PeekUint64() returns (x: Option<nat>)
      requires Valid()
      modifies this`readIndex
      ensures Valid() && readIndex == old(readIndex)
      ensures x == if |Unread()| < 8 then None
                   else Some(LoadBe32(Unread()) * TWO_32 + LoadBe32(Unread()[4..]))
    {
      if UnreadLength() < 8 {
        return None;
      }
      var first := PeekUint32();
      var _ := ConsumeOrFail(4);
      var second := PeekUint32();
      assert Unread() == old(Unread())[4..];
      UnreadBytes(4);
      x := Some(first.value * TWO_32 + second.value);
    }

    method ReadUint64() returns (x: Option<nat>)
      requires Valid()
      modifies this`readIndex
      ensures Valid()
      ensures x == if |old(Unread())| < 8 then None
                   else Some(LoadBe32(old(Unread())) * TWO_32 + LoadBe32(old(Unread())[4..]))
      ensures Unread() == if x.Some? then old(Unread())[8..] else old(Unread())
    {
      x := PeekUint64();
      if x.Some? {
        var _ := ConsumeOrFail(8);
      }
    }

    method ToString(len: nat) returns (s: Option<seq<byte>>)
      requires Valid()
      modifies this`readIndex
      ensures Valid()
      ensures s == if len > |old(Unread())| then None else Some(old(Unread())[..len])
      ensures Unread() == if s.Some? then old(Unread())[len..] else old(Unread())
    {
      if len > UnreadLength() {
        return None;
      }
      s := Some(data[readIndex..readIndex + len]);
      assert data[readIndex..readIndex + len] == Unread()[..len];
      var _ := ConsumeOrFail(len);
    }

    // ------------------------------------------------------------ snapshots

    method CaptureSnapshot()
      requires Valid()
      modifies this`capacityTemp, this`readIndexTemp, this`writeIndexTemp
      ensures capacityTemp == capacity && readIndexTemp == readIndex && writeIndexTemp == writeIndex
    {
      capacityTemp, readIndexTemp, writeIndexTemp := capacity, readIndex, writeIndex;
    }

    method RestoreSnapshot()
      modifies this`capacity, this`readIndex, this`writeIndex
      ensures capacity == capacityTemp && readIndex == readIndexTemp && writeIndex == writeIndexTemp
    {
      capacity, readIndex, writeIndex := capacityTemp, readIndexTemp, writeIndexTemp;
    }

    // ------------------------------------------------------------ socket reads

    /** Before a read of up to `n` bytes. */
    method SocketReadLength(n: nat) returns (ok: bool)
      requires Valid()
      modifies this, data
      ensures Valid() && (data == old(data) || fresh(data))
      ensures Unread() == old(Unread())
      ensures ok ==> WritableBytes() >= n
      ensures !ok ==> WritableBytes() < n && capacity - UnreadLength() < n && capacity > 0x40_0000
      ensures capacity == old(capacity) || capacity <= 2 * 0x40_0000 + n
      ensures !ok <==> old(WritableBytes()) < n && old(capacity - UnreadLength()) < n && old(capacity) > 0x40_0000
    {
      if WritableBytes() >= n {
        return true;
      }
      MoveUnreadToBegin();
      if WritableBytes() >= n {
        return true;
      }
      if capacity > MAX_CACHE_SIZE {
        return false;
      }
      Grow(n);
      ok := true;
    }

    /** The socket has put `bytes` at the write position. */
    method SocketConsume(bytes: seq<byte>) returns (ok: bool)
      requires Valid()
      modifies this`writeIndex, data
      ensures Valid() && ok == (|bytes| <= old(WritableBytes()))
      ensures Unread() == if ok then old(Unread()) + bytes else old(Unread())
    {
      ok := |bytes| <= WritableBytes();
      if ok {
        forall i | 0 <= i < |bytes| {
          data[writeIndex + i] := bytes[i];
        }
        writeIndex := writeIndex + |bytes|;
      }
    }

    // ------------------------------------------------------------ prepending

    /** Whether one of the three branches that keep the array applies. */
    predicate FitsInPlace(size: nat)
      requires Valid()
      reads this
    {
      size <= readIndex + WritableBytes()
    }

    /** `prepend`. The branch that takes a new array sizes it `capacity << (1 + size)`, the
        way C++ reads the expression, and computes the new write index after the read index
        has been zeroed: it is past the intended end by the old read index. */
    method Prepend(bytes: seq<byte>)
      requires Valid()
      requires !FitsInPlace(|bytes|) ==> capacity > 0 && capacity * Pow2(1 + |bytes|) < TWO_64
      modifies this, data
      ensures Valid() && (data == old(data) || fresh(data))
      ensures bytes + old(Unread()) <= Unread()
      ensures |Unread()| == |bytes| + |old(Unread())| + if old(FitsInPlace(|bytes|)) then 0 else old(readIndex)
      ensures Unread() == bytes + old(Unread()) <==> old(FitsInPlace(|bytes|) || readIndex == 0)
      ensures old(FitsInPlace(|bytes|)) ==> data == old(data) && capacity == old(capacity)
    {
      var size := |bytes|;
      if size == 0 {
        return;
      }
      if readIndex >= size {
        PrependBefore(bytes);
        return;
      }
      var available := WritableBytes();
      if available >= size {
        PrependShifting(bytes, readIndex);
      } else if available >= size - readIndex {
        PrependShifting(bytes, 0);
      } else {
        PrependCopying(bytes);
      }
    }

    /** There is room in front of the unread bytes. */
    method PrependBefore(bytes: seq<byte>)
      requires Valid() && |bytes| <= readIndex
      modifies this`readIndex, data
      ensures Valid() && Unread() == bytes + old(Unread())
    {
      readIndex := readIndex - |bytes|;
      forall i | 0 <= i < |bytes| {
        data[readIndex + i] := bytes[i];
      }
    }

    /** Move the unread bytes so that they end up behind `bytes` put at index `start`. */
    method PrependShifting(bytes: seq<byte>, start: nat)
      requires Valid()
      requires start <= readIndex <= start + |bytes|
      requires start + |bytes| + UnreadLength() <= capacity
      modifies this`readIndex, this`writeIndex, data
      ensures Valid() && Unread() == bytes + old(Unread())
    {
      var n := UnreadLength();
      var body := start + |bytes|;
      ghost var unread := Unread();
      forall i | 0 <= i < n {
        data[body + i] := data[readIndex + i];
      }
      assert forall i | 0 <= i < n :: data[body..body + n][i] == unread[i];
      assert data[body..body + n] == unread;
      readIndex, writeIndex := start, body + n;
      forall i | 0 <= i < |bytes| {
        data[start + i] := bytes[i];
      }
      assert data[start..body] == bytes;
      assert data[body..body + n] == unread;
      assert data[start..body + n] == data[start..body] + data[body..body + n];
    }

    method PrependCopying(bytes: seq<byte>)
      requires Valid() && !FitsInPlace(|bytes|)
      requires capacity > 0 && capacity * Pow2(1 + |bytes|) < TWO_64
      modifies this
      ensures Valid() && fresh(data)
      ensures bytes + old(Unread()) <= Unread()
      ensures |Unread()| == |bytes| + old(writeIndex)
    {
      var size := |bytes|;
      var bigger := capacity * Pow2(1 + size);
      ShiftIsRoomy(capacity, size);
      var temp := new byte[bigger];
      forall i | 0 <= i < size {
        temp[i] := bytes[i];
      }
      var n := UnreadLength();
      forall i | 0 <= i < n {
        temp[size + i] := data[readIndex + i];
      }
      assert temp[..size + n] == bytes + Unread();
      capacity := bigger;
      readIndex := 0;
      writeIndex := size + (writeIndex - readIndex);
      data := temp;
      assert Unread()[..size + n] == temp[..size + n];
    }
  }

  lemma {:induction false} Pow2Grows(n: nat)
    ensures Pow2(n) > n
  {
    if n > 0 {
      Pow2Grows(n - 1);
    }
  }

  /** The shifted capacity leaves room for everything the branch copies. */
  lemma ShiftIsRoomy(capacity: nat, size: nat)
    requires capacity > 0
    ensures capacity * Pow2(1 + size) >= capacity + size
  {
    Pow2Grows(size);
    var p := Pow2(size);
    assert Pow2(1 + size) == 2 * p;
    assert capacity * (2 * p) == capacity * p + capacity * p;
    MulAtLeast(p, capacity);
    MulAtLeast(capacity, p);
    assert capacity * p >= p && p * capacity == capacity * p;
  }

  // -------------------------------------------------------------- whole runs

  datatype Op =
    | Put(bytes: seq<byte>)
    | Take(n: nat)
    | Drop(n: nat)
    | Word16
    | Word32
    | Word64
    | PeekWord64
    | Compact
    | Receive(limit: nat, bytes: seq<byte>)
    | PutFront(bytes: seq<byte>)

  /** The operations on a plain queue. */
  function OnQueue(q: seq<byte>, op: Op): seq<byte> {
    match op
    case Put(bytes) => q + bytes
    case Take(n) => if n <= |q| then q[n..] else q
    case Drop(n) => if n <= |q| then q[n..] else []
    case Word16 => if |q| >= 2 then q[2..] else q
    case Word32 => if |q| >= 4 then q[4..] else q
    case Word64 => if |q| >= 8 then q[8..] else q
    case PeekWord64 => q
    case Compact => q
    case Receive(_, bytes) => q + bytes
    case PutFront(bytes) => bytes + q
  }

  function QueueAfter(q: seq<byte>, ops: seq<Op>): seq<byte> {
    if ops == [] then q else OnQueue(QueueAfter(q, ops[..|ops| - 1]), ops[|ops| - 1])
  }

  /** What an operation gives back: the number read, the length dropped, or nothing when the
      queue is too short. */
  function Output(q: seq<byte>, op: Op): Option<nat> {
    match op
    case Take(n) => if n <= |q| then Some(n) else None
    case Word16 => if |q| >= 2 then Some(LoadBe16(q)) else None
    case Word32 => if |q| >= 4 then Some(LoadBe32(q)) else None
    case Word64 => if |q| >= 8 then Some(LoadBe32(q) * TWO_32 + LoadBe32(q[4..])) else None
    case PeekWord64 => if |q| >= 8 then Some(LoadBe32(q) * TWO_32 + LoadBe32(q[4..])) else None
    case _ => None
  }

  function Outputs(q: seq<byte>, ops: seq<Op>): seq<Option<nat>> {
    if ops == [] then [] else
    var before := ops[..|ops| - 1];
    Outputs(q, before) + [Output(QueueAfter(q, before), ops[|ops| - 1])]
  }

  /** A prepend is done in place, and a socket read is refused by a full buffer over the limit
      only. Everything else is always done. */
  predicate Accepts(buf: FlatBuffer, op: Op)
    requires buf.Valid()
    reads buf, buf.data
  {
    match op
    case PutFront(bytes) => buf.FitsInPlace(|bytes|)
    case Receive(limit, _) =>
      buf.WritableBytes() >= limit || buf.capacity - buf.UnreadLength() >= limit || buf.capacity <= MAX_CACHE_SIZE
    case _ => true
  }

  /** One operation. */
  method Perform(buf: FlatBuffer, op: Op) returns (ok: bool, out: Option<nat>)
    requires buf.Valid()
    requires op.Receive? ==> |op.bytes| <= op.limit
    modifies buf, buf.data
    ensures buf.Valid() && (buf.data == old(buf.data) || fresh(buf.data))
    ensures ok == old(Accepts(buf, op)) && (!ok ==> !Accepts(buf, op))
    ensures buf.Unread() == if ok then OnQueue(old(buf.Unread()), op) else old(buf.Unread())
    ensures ok ==> out == Output(old(buf.Unread()), op)
    ensures !op.Put? ==> buf.capacity == old(buf.capacity)
                         || (op.Receive? && buf.capacity <= 2 * MAX_CACHE_SIZE + op.limit)
  {
    hide LoadBe16, LoadBe32;
    ok, out := true, None;
    match op {
      case Put(bytes) => buf.Write(bytes);
      case Take(n) =>
        var enough := buf.ConsumeOrFail(n);
        out := if enough then Some(n) else None;
      case Drop(n) => buf.SafeConsume(n);
      case Word16 => out := buf.ReadUint16();
      case Word32 =>
        var word := buf.ReadUint32();
        out := if word.Some? then Some(word.value) else None;
      case Word64 => out := buf.ReadUint64();
      case PeekWord64 => out := buf.PeekUint64();
      case Compact => buf.MoveUnreadToBegin();
      case Receive(limit, bytes) => ok := ReceiveBytes(buf, limit, bytes);
      case PutFront(bytes) =>
        ok := buf.FitsInPlace(|bytes|);
        if ok {
          buf.Prepend(bytes);
        }
    }
  }

  /** A socket read: room is made, and the socket puts `bytes` there. */
  method ReceiveBytes(buf: FlatBuffer, limit: nat, bytes: seq<byte>) returns (ok: bool)
    requires buf.Valid() && |bytes| <= limit
    modifies buf, buf.data
    ensures buf.Valid() && (buf.data == old(buf.data) || fresh(buf.data))
    ensures ok == old(Accepts(buf, Receive(limit, bytes))) && (!ok ==> !Accepts(buf, Receive(limit, bytes)))
    ensures buf.Unread() == if ok then old(buf.Unread()) + bytes else old(buf.Unread())
    ensures buf.capacity == old(buf.capacity) || buf.capacity <= 2 * MAX_CACHE_SIZE + limit
  {
    ok := buf.SocketReadLength(limit);
    if ok {
      var _ := buf.SocketConsume(bytes);
    }
  }

  /** Main result: any sequence of operations leaves exactly the queue's contents unread and
      gives back exactly what the queue gives; it only stops in front of an operation that the
      state reached refuses; and reads of at most `most` bytes keep the capacity under 8 MiB
      plus `most`. */
  method Replay(buf: FlatBuffer, ops: seq<Op>, most: nat) returns (k: nat, outs: seq<Option<nat>>)
    requires buf.Valid()
    requires forall i | 0 <= i < |ops| && ops[i].Receive? :: |ops[i].bytes| <= ops[i].limit <= most
    modifies buf, buf.data
    ensures buf.Valid() && k <= |ops|
    ensures buf.Unread() == QueueAfter(old(buf.Unread()), ops[..k])
    ensures outs == Outputs(old(buf.Unread()), ops[..k])
    ensures k < |ops| ==> !Accepts(buf, ops[k])
    ensures (forall i | 0 <= i < |ops| :: !ops[i].Put?) ==>
              buf.capacity == old(buf.capacity) || buf.capacity <= 2 * MAX_CACHE_SIZE + most
  {
    hide OnQueue, Output, Accepts;
    k, outs := 0, [];
    while k < |ops|
      invariant k <= |ops| && buf.Valid()
      invariant buf.data == old(buf.data) || fresh(buf.data)
      invariant buf.Unread() == QueueAfter(old(buf.Unread()), ops[..k])
      invariant outs == Outputs(old(buf.Unread()), ops[..k])
      invariant (forall i | 0 <= i < |ops| :: !ops[i].Put?) ==>
                  buf.capacity == old(buf.capacity) || buf.capacity <= 2 * MAX_CACHE_SIZE + most
    {
      var ok, out := Perform(buf, ops[k]);
      if !ok {
        return;
      }
      assert ops[..k + 1][..k] == ops[..k];
      outs := outs + [out];
      k := k + 1;
    }
  }
}
