/** The byte queues under the bit streams: the queue both implementations promise to be
    (`StreamBuffer`), the vector with two indices, and the memory block with read and write pointers. */
module Buffers {
  import opened Bits

  // ---- the plain byte queue ----

  datatype QueueOp = Push(item: byte) | Pop | CopyFrom(block: seq<byte>) | CopyTo(size: nat)
                   | PeekFront | PeekBack | OrBack(mask: byte) | Reset | Size

  datatype QueueResult = Done | Items(bytes: seq<byte>) | Count(n: nat) | Corrupted | OutOfMemory

  /** One operation on a plain queue of bytes: the new queue and what the caller gets. */
  function QueueStep(q: seq<byte>, op: QueueOp): (r: (seq<byte>, QueueResult))
  {
    match op
    case Push(item) => (q + [item], Done)
    case Pop => (if q == [] then q else q[1..], Done)
    case CopyFrom(block) => (q + block, Done)
    case CopyTo(n) => if |q| < n then (q, Corrupted) else (q[n..], Items(q[..n]))
    case PeekFront => (q, if q == [] then Done else Items([q[0]]))
    case PeekBack => (q, if q == [] then Done else Items([q[|q| - 1]]))
    case OrBack(mask) => (if q == [] then q else q[..|q| - 1] + [ToByte(Or(q[|q| - 1], mask))], Done)
    case Reset => ([], Done)
    case Size => (q, Count(|q|))
  }

  function QueueContents(q: seq<byte>, ops: seq<QueueOp>): (r: seq<byte>)
  {
    if ops == [] then q else QueueStep(QueueContents(q, ops[..|ops| - 1]), ops[|ops| - 1]).0
  }

  function QueueResults(q: seq<byte>, ops: seq<QueueOp>): (r: seq<QueueResult>)
    ensures |r| == |ops|
  {
    if ops == [] then []
    else
      var before := ops[..|ops| - 1];
      QueueResults(q, before) + [QueueStep(QueueContents(q, before), ops[|ops| - 1]).1]
  }

  /** The bytes an operation puts in. */
  function PutIn(op: QueueOp): (bytes: seq<byte>)
  {
    match op
    case Push(item) => [item]
    case CopyFrom(block) => block
    case _ => []
  }

  /** The bytes an operation takes out: the front one, or those it answers with. */
  function TakenOut(q: seq<byte>, op: QueueOp): (bytes: seq<byte>)
  {
    match op
    case Pop => if q == [] then [] else [q[0]]
    case CopyTo(_) => if QueueStep(q, op).1.Items? then QueueStep(q, op).1.bytes else []
    case _ => []
  }

  function AllIn(ops: seq<QueueOp>): (bytes: seq<byte>)
  {
    if ops == [] then [] else AllIn(ops[..|ops| - 1]) + PutIn(ops[|ops| - 1])
  }

  function AllOut(q: seq<byte>, ops: seq<QueueOp>): (bytes: seq<byte>)
  {
    if ops == [] then []
    else
      var before := ops[..|ops| - 1];
      AllOut(q, before) + TakenOut(QueueContents(q, before), ops[|ops| - 1])
  }

  /** First in, first out: over every run without resets and or-s, what was there and what was put in is what was
      taken out and what is left, in order. */
  lemma {:induction false} FirstInFirstOut(q: seq<byte>, ops: seq<QueueOp>)
    requires forall i | 0 <= i < |ops| :: !ops[i].Reset? && !ops[i].OrBack?
    ensures q + AllIn(ops) == AllOut(q, ops) + QueueContents(q, ops)
  {
    hide QueueStep, TakenOut, PutIn;
    if ops == [] {
      assert q + [] == [] + q;
    } else {
      var before, last := ops[..|ops| - 1], ops[|ops| - 1];
      FirstInFirstOut(q, before);
      StepConserves(QueueContents(q, before), last);
      Regroup(q, AllIn(before), PutIn(last), AllOut(q, before), QueueContents(q, before),
              TakenOut(QueueContents(q, before), last), QueueStep(QueueContents(q, before), last).0);
    }
  }

  lemma Regroup(
    q: seq<byte>, ins: seq<byte>, put: seq<byte>, outs: seq<byte>, now: seq<byte>, out: seq<byte>, next: seq<byte>)
    requires q + ins == outs + now && now + put == out + next
    ensures q + (ins + put) == (outs + out) + next
  {
    assert q + (ins + put) == (q + ins) + put;
    assert (outs + now) + put == outs + (now + put);
    assert outs + (out + next) == (outs + out) + next;
  }

  lemma StepConserves(q: seq<byte>, op: QueueOp)
    requires !op.Reset? && !op.OrBack?
    ensures q + PutIn(op) == TakenOut(q, op) + QueueStep(q, op).0
  {
  }

  /** What the operations answer: a copy out is refused exactly when there are too few bytes and is then without
      effect; peeking and counting change nothing; an or sets bits of the last byte alone. */
  lemma QueueAnswers(q: seq<byte>, n: nat, mask: byte)
    ensures QueueStep(q, CopyTo(n)).1 == Corrupted <==> |q| < n
    ensures QueueStep(q, CopyTo(n)).1.Items? ==> |QueueStep(q, CopyTo(n)).1.bytes| == n
    ensures QueueStep(q, Size) == (q, Count(|q|)) && QueueStep(q, QueueOp.Reset).0 == []
    ensures q != [] ==> QueueStep(q, PeekFront) == (q, Items([q[0]]))
    ensures q != [] ==> QueueStep(q, PeekBack) == (q, Items([q[|q| - 1]]))
    ensures var t := QueueStep(q, OrBack(mask)).0;
      && |t| == |q| && (forall i | 0 <= i < |q| - 1 :: t[i] == q[i])
      && (q != [] ==> forall i | 0 <= i < 8 ::
            ToBits(t[|q| - 1], 8)[i] == (ToBits(q[|q| - 1], 8)[i] || ToBits(mask, 8)[i]))
  {
    hide ToBits, Or;
    if q != [] {
      var last := q[|q| - 1];
      ToByteBits(Or(last, mask));
      ToBitsOr(last, mask, 8);
    }
  }

  /** The queue itself, as the bit streams use it. */
  class StreamBuffer {
    var items: seq<byte>

    constructor (initial: seq<byte>)
      ensures items == initial
    {
      items := initial;
    }

    method Append(item: byte)
      modifies this
      ensures items == old(items) + [item]
    {
      items := items + [item];
    }

    method Drop()
      modifies this
      ensures items == if old(items) == [] then [] else old(items)[1..]
    {
      if items != [] { items := items[1..]; }
    }

    method OrLast(mask: byte)
      requires items != []
      modifies this
      ensures items == old(items[..|items| - 1]) + [ToByte(Or(old(items[|items| - 1]), mask))]
    {
      items := items[..|items| - 1] + [ToByte(Or(items[|items| - 1], mask))];
    }

    function First(): (b: byte)
      requires items != []
      reads this
    {
      items[0]
    }
  }

  // ---- the vector implementation ----

  /** `capacity` is the vector's allocated size; `buffer` its elements. */
  class VectorStreamBuffer {
    var buffer: seq<byte>
    var capacity: nat
    var readIndex: nat
    var writeIndex: nat

    ghost predicate Valid()
      reads this
    {
      readIndex <= writeIndex == |buffer| <= capacity
    }

    ghost function Contents(): (q: seq<byte>)
      requires Valid()
      reads this
    {
      buffer[readIndex..]
    }

    constructor (defaultCapacity: nat)
      ensures Valid() && Contents() == [] && capacity == defaultCapacity
    {
      buffer, capacity, readIndex, writeIndex := [], defaultCapacity, 0, 0;
    }

    /** Doubles the vector once; reports failure when that is still too small. */
    method Reserve(neededSize: nat) returns (ok: bool)
      requires Valid()
      modifies this`capacity
      ensures Valid()
      ensures ok <==> writeIndex + neededSize <= 2 * old(capacity)
      ensures ok ==> writeIndex + neededSize <= capacity
    {
      ok := true;
      if capacity - writeIndex < neededSize {
        capacity := capacity * 2;
        ok := capacity - writeIndex >= neededSize;
      }
    }

    method ResetIndices()
      modifies this
      ensures Valid() && Contents() == [] && capacity == old(capacity)
    {
      readIndex, writeIndex := 0, 0;
      buffer := [];
    }

    method Append(block: seq<byte>) returns (r: QueueResult)
      requires Valid()
      modifies this
      ensures Valid()
      ensures r == if old(writeIndex) + |block| <= 2 * old(capacity) then Done else OutOfMemory
      ensures Contents() == old(Contents()) + if r == Done then block else []
    {
      var ok := Reserve(|block|);
      if ok {
        buffer := buffer + block;
        writeIndex := writeIndex + |block|;
        r := Done;
      } else {
        r := OutOfMemory;
      }
    }

    method Drop()
      requires Valid()
      modifies this
      ensures Valid() && Contents() == QueueStep(old(Contents()), Pop).0
    {
      if writeIndex != readIndex {
        readIndex := readIndex + 1;
        if writeIndex == readIndex { ResetIndices(); }
      }
    }

    method Take(size: nat) returns (r: QueueResult)
      requires Valid()
      modifies this
      ensures Valid() && Contents() == QueueStep(old(Contents()), CopyTo(size)).0
      ensures r == QueueStep(old(Contents()), CopyTo(size)).1
    {
      if writeIndex - readIndex < size { return Corrupted; }
      r := Items(buffer[readIndex..readIndex + size]);
      readIndex := readIndex + size;
      if writeIndex == readIndex { ResetIndices(); }
    }

    /** Every operation behaves as on the plain queue, unless the vector is out of memory, in which
        case nothing is lost. */
    method Apply(op: QueueOp) returns (r: QueueResult)
      requires Valid()
      modifies this
      ensures Valid()
      ensures r != OutOfMemory ==> Contents() == QueueStep(old(Contents()), op).0
      ensures r != OutOfMemory ==> r == QueueStep(old(Contents()), op).1
      ensures r == OutOfMemory ==> Contents() == old(Contents())
    {
      hide Or, ToByte;
      r := Done;
      match op {
        case Push(item) => r := Append([item]);
        case Pop => Drop();
        case CopyFrom(block) => r := Append(block);
        case CopyTo(size) => r := Take(size);
        case PeekFront => if writeIndex != readIndex { r := Items([buffer[readIndex]]); }
        case PeekBack => if writeIndex != readIndex { r := Items([buffer[writeIndex - 1]]); }
        case OrBack(mask) => OrLast(mask);
        case Reset => ResetIndices();
        case Size => r := Count(writeIndex - readIndex);
      }
    }

    /** `back() |= mask` */
    method OrLast(mask: byte)
      requires Valid()
      modifies this`buffer
      ensures Valid() && Contents() == QueueStep(old(Contents()), OrBack(mask)).0
    {
      hide Or, ToByte;
      if writeIndex != readIndex {
        ghost var q := Contents();
        var last := ToByte(Or(buffer[writeIndex - 1], mask));
        buffer := buffer[..writeIndex - 1] + [last];
        assert Contents() == q[..|q| - 1] + [last];
      }
    }
  }

  // ---- the memory block and the queue over it ----

  class MemoryBlock {
    var buffer: seq<byte>
    var rdPtr: nat
    var wrPtr: nat

    ghost predicate Valid()
      reads this
    {
      rdPtr <= wrPtr <= |buffer|
    }

    /** The written bytes not yet read. */
    ghost function Unread(): (q: seq<byte>)
      requires Valid()
      reads this
    {
      buffer[rdPtr..wrPtr]
    }

    constructor (initialSize: nat)
      ensures Valid() && Unread() == [] && |buffer| == initialSize
      ensures rdPtr == wrPtr == 0
    {
      buffer := seq(initialSize, _ => 0);
      rdPtr, wrPtr := 0, 0;
    }

    function Length(): (n: nat)
      requires Valid()
      reads this
      ensures n == |Unread()|
    {
      wrPtr - rdPtr
    }

    function Space(): (n: nat)
      requires Valid()
      reads this
    {
      |buffer| - wrPtr
    }

    /** `buffer_.resize`: new elements are zero. */
    method Resize(n: nat)
      requires Valid() && wrPtr <= n
      modifies this`buffer
      ensures Valid() && |buffer| == n && Unread() == old(Unread())
      ensures buffer[..wrPtr] == old(buffer[..wrPtr])
    {
      buffer := if n <= |buffer| then buffer[..n] else buffer + seq(n - |buffer|, _ => 0);
    }

    method Reserve(neededSize: nat)
      requires Valid()
      modifies this`buffer
      ensures Valid() && Space() >= neededSize && Unread() == old(Unread())
      ensures |buffer| == if old(Space()) < neededSize then wrPtr + neededSize else old(|buffer|)
      ensures buffer[..wrPtr] == old(buffer[..wrPtr])
    {
      if Space() < neededSize { Resize(|buffer| + (neededSize - Space())); }
    }

    method Reset()
      modifies this`rdPtr, this`wrPtr
      ensures Valid() && Unread() == [] && rdPtr == wrPtr == 0
    {
      rdPtr, wrPtr := 0, 0;
    }

    /** Moves the unread bytes to the front once three tenths of the block have been read. */
    method Crunch()
      requires Valid()
      modifies this
      ensures Valid() && Unread() == old(Unread()) && |buffer| == old(|buffer|)
      ensures rdPtr == if old(rdPtr) >= |buffer| * 3 / 10 then 0 else old(rdPtr)
    {
      var boundary := |buffer| * 3 / 10;
      if rdPtr >= boundary {
        var len := Length();
        buffer := buffer[rdPtr..wrPtr] + buffer[len..];
        rdPtr, wrPtr := 0, len;
      }
    }

    method Put(block: seq<byte>)
      requires Valid()
      modifies this
      ensures Valid() && Unread() == old(Unread()) + block
      ensures rdPtr == old(rdPtr) && wrPtr == old(wrPtr) + |block|
      ensures old(|buffer|) <= |buffer|
      ensures buffer[..old(wrPtr)] == old(buffer[..wrPtr])
    {
      Reserve(|block|);
      buffer := buffer[..wrPtr] + block + buffer[wrPtr + |block|..];
      wrPtr := wrPtr + |block|;
    }

    method Get(n: nat) returns (block: seq<byte>)
      requires Valid() && n <= Length()
      modifies this`rdPtr
      ensures Valid() && block == old(Unread())[..n] && Unread() == old(Unread())[n..]
    {
      block := buffer[rdPtr..rdPtr + n];
      rdPtr := rdPtr + n;
    }

    /** Writes over bytes already there, as through a pointer into the buffer. */
    method Overwrite(at: nat, bytes: seq<byte>)
      requires Valid() && at + |bytes| <= |buffer|
      modifies this`buffer
      ensures Valid() && buffer == old(buffer[..at]) + bytes + old(buffer[at + |bytes|..])
      ensures |buffer| == old(|buffer|)
    {
      buffer := buffer[..at] + bytes + buffer[at + |bytes|..];
    }

    /** `rd_ptr(n)` */
    method Skip(n: nat)
      requires Valid() && n <= Length()
      modifies this`rdPtr
      ensures Valid() && Unread() == old(Unread())[n..] && rdPtr == old(rdPtr) + n
    {
      rdPtr := rdPtr + n;
    }
  }

  class MemoryBlockStreamBuffer {
    const block: MemoryBlock

    constructor (block: MemoryBlock)
      ensures this.block == block
    {
      this.block := block;
    }

    method AfterRead()
      requires block.Valid()
      modifies block
      ensures block.Valid() && block.Unread() == old(block.Unread())
    {
      if block.Length() == 0 { block.Reset(); } else { block.Crunch(); }
    }

    /** Every operation behaves as on the plain queue. */
    method Apply(op: QueueOp) returns (r: QueueResult)
      requires block.Valid()
      modifies block
      ensures block.Valid() && block.Unread() == QueueStep(old(block.Unread()), op).0
      ensures r == QueueStep(old(block.Unread()), op).1
    {
      hide Or, ToByte;
      r := Done;
      match op {
        case Push(item) => block.Put([item]);
        case Pop =>
          if block.Length() != 0 {
            block.Skip(1);
            AfterRead();
          }
        case CopyFrom(bytes) => block.Put(bytes);
        case CopyTo(size) =>
          if block.Length() < size { return Corrupted; }
          var bytes := block.Get(size);
          AfterRead();
          r := Items(bytes);
        case PeekFront => if block.Length() != 0 { r := Items([block.buffer[block.rdPtr]]); }
        case PeekBack => if block.Length() != 0 { r := Items([block.buffer[block.wrPtr - 1]]); }
        case OrBack(mask) => OrLast(mask);
        case Reset => block.Reset();
        case Size => r := Count(block.Length());
      }
    }

    /** `back() |= mask` */
    method OrLast(mask: byte)
      requires block.Valid()
      modifies block
      ensures block.Valid() && block.Unread() == QueueStep(old(block.Unread()), OrBack(mask)).0
    {
      hide Or, ToByte;
      if block.Length() != 0 {
        ghost var q := block.Unread();
        var at := block.wrPtr - 1;
        var last := ToByte(Or(block.buffer[at], mask));
        block.buffer := block.buffer[at := last];
        assert block.Unread() == q[..|q| - 1] + [last];
      }
    }
  }

  /** Runs any operation sequence on both implementations. The memory block gives the answers of the
      plain queue; so does the vector on every run in which it never reports being out of memory. */
  method RunBoth(ops: seq<QueueOp>, v: VectorStreamBuffer, m: MemoryBlockStreamBuffer)
    returns (vr: seq<QueueResult>, mr: seq<QueueResult>)
    requires v.Valid() && m.block.Valid() && v.Contents() == m.block.Unread()
    modifies v, m.block
    ensures v.Valid() && m.block.Valid()
    ensures mr == QueueResults(old(m.block.Unread()), ops)
    ensures m.block.Unread() == QueueContents(old(m.block.Unread()), ops)
    ensures OutOfMemory !in vr ==> vr == mr && v.Contents() == m.block.Unread()
  {
    ghost var q := m.block.Unread();
    vr, mr := [], [];
    for i := 0 to |ops|
      invariant v.Valid() && m.block.Valid()
      invariant mr == QueueResults(q, ops[..i]) && m.block.Unread() == QueueContents(q, ops[..i])
      invariant |vr| == i && (OutOfMemory !in vr ==> vr == mr && v.Contents() == m.block.Unread())
    {
      assert ops[..i + 1][..i] == ops[..i];
      var a := v.Apply(ops[i]);
      var b := m.Apply(ops[i]);
      vr, mr := vr + [a], mr + [b];
    }
    assert ops[..|ops|] == ops;
  }
}
