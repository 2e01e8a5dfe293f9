/** The read side of one TCP connection, from open to disconnect: one read or an armed throttle timer,
    the bandwidth limiter, and the marshaller that consumes what was read. */
module ReadSession {
  import opened Bits
  import opened Buffers
  import opened Wrappers
  import opened Cipher
  import opened Packets
  import opened PacketLaws
  import opened Marshaller

  type uint16 = n: nat | n < 0x1_0000

  const SIZE_MAX: nat := 0xFFFF_FFFF_FFFF_FFFF

  class BandwidthLimit {
    const maxBytesPerSecond: uint16     // 0: no limit
    const secondsForThrottling: uint16
    var readBytes: nat
    var startedTime: int
    var badTime: int                    // 0: not bad

    predicate ShouldThrottle() { maxBytesPerSecond > 0 }

    /** Bad exactly when the bytes counted reach the limit. */
    predicate Marked()
      reads this
    {
      if ShouldThrottle() then badTime != 0 <==> readBytes >= maxBytesPerSecond
      else readBytes == 0 && badTime == 0
    }

    constructor (maxBytesPerSecond: uint16, secondsForThrottling: uint16)
      ensures this.maxBytesPerSecond == maxBytesPerSecond && this.secondsForThrottling == secondsForThrottling
      ensures Marked() && badTime == 0
    {
      this.maxBytesPerSecond, this.secondsForThrottling := maxBytesPerSecond, secondsForThrottling;
      new;
      Reset();
    }

    method Reset()
      modifies this
      ensures readBytes == 0 && startedTime == badTime == 0 && Marked()
    {
      startedTime, readBytes, badTime := 0, 0, 0;
    }

    /** Counts bytes. A count still below the limit starts over once a second has passed. The mark is
        lost only if the limit is first reached while the clock reads zero. */
    method Add(bytes: nat, now: int)
      modifies this
      ensures var total, expired := old(readBytes) + bytes, old(startedTime) != 0 && now - old(startedTime) >= 1;
        readBytes ==
          if !ShouldThrottle() then old(readBytes) else if total < maxBytesPerSecond && expired then 0 else total
      ensures var total, expired := old(readBytes) + bytes, old(startedTime) != 0 && now - old(startedTime) >= 1;
        ShouldThrottle() ==>
          if total < maxBytesPerSecond then
            && startedTime == (if expired then 0 else if old(startedTime) == 0 then now else old(startedTime))
            && badTime == (if expired then 0 else old(badTime))
          else
            && startedTime == (if old(startedTime) == 0 then now else old(startedTime))
            && badTime == (if old(badTime) == 0 then now else old(badTime))
      ensures !ShouldThrottle() ==> startedTime == old(startedTime) && badTime == old(badTime)
      ensures old(Marked()) ==>
        (Marked() <==> now != 0 || old(badTime) != 0 || !ShouldThrottle() || old(readBytes) + bytes < maxBytesPerSecond)
    {
      if !ShouldThrottle() { return; }
      readBytes := readBytes + bytes;
      if startedTime == 0 { startedTime := now; }
      if readBytes < maxBytesPerSecond {
        if now - startedTime >= 1 { Reset(); }
        return;
      }
      if badTime == 0 { badTime := now; }
    }

    /** Refuses exactly while bad for less than the throttling time; once that has passed, counting starts over. */
    method Check(now: int) returns (karma: bool)
      requires Marked()
      modifies this
      ensures Marked() && (karma <==> badTime == 0)
      ensures karma <==> old(badTime) == 0 || now - old(badTime) >= secondsForThrottling
      ensures var restarts := old(badTime) != 0 && karma;
        && readBytes == (if restarts then 0 else old(readBytes))
        && startedTime == (if restarts then 0 else old(startedTime))
        && badTime == (if restarts then 0 else old(badTime))
    {
      if !ShouldThrottle() { return true; }
      if readBytes < maxBytesPerSecond { return true; }
      if badTime == 0 { return true; }
      if now - badTime >= secondsForThrottling {
        Reset();
        return true;
      }
      return false;
    }

    /** The subtraction is on unsigned 64-bit sizes: while the mark is kept it never wraps around. */
    function LeftBytes(): (n: nat)
      reads this
      ensures Marked() ==> n == if readBytes < maxBytesPerSecond then maxBytesPerSecond - readBytes else 0
      ensures readBytes <= SIZE_MAX ==> (n <= maxBytesPerSecond <==> badTime != 0 || readBytes <= maxBytesPerSecond)
    {
      if badTime != 0 then 0 else (maxBytesPerSecond - readBytes) % (SIZE_MAX + 1)
    }
  }

  datatype Event =
    | Arrive(bytes: seq<byte>, addTime: int, checkTime: int)  // the read completes; the clock as add and check see it
    | ReadFails
    | ThrottleTimeout
    | Disconnect

  predicate ClockRuns(e: Event) { e.Arrive? ==> e.addTime != 0 }

  class TcpReader {
    const marshaller: SgpMarshaller
    const limiter: BandwidthLimit
    var isOpen: bool
    var throttleTimerRunning: bool
    var reading: Option<nat>       // the read the socket owes a completion for, and its room
    var failed: bool               // a read or the marshaller failed: a disconnect is on its way
    var recvBytes: nat
    var recvMessageCount: nat
    ghost var start: nat           // the key generator's state at the start
    ghost var received: seq<byte>  // all bytes read

    ghost function Repr(): (r: set<object>) { {this, limiter} + marshaller.Repr() }

    ghost predicate Separate() { limiter !in marshaller.Repr() && this !in marshaller.Repr() }

    /** What the marshaller makes of all bytes read so far, taken at once. */
    ghost function Consumed(): (o: Outcome)
      requires marshaller.packetCoder.coder.Valid()
      reads this
    {
      Consume(marshaller.packetCoder.coder, marshaller.accept, Receiver(start, [], received))
    }

    /** The marshaller has handed over just what all bytes read so far contain. */
    ghost predicate InStep()
      reads this, limiter, marshaller.Repr()
    {
      && Separate() && marshaller.Sound() && 3 <= |marshaller.recvBlock.buffer|
      && Consumed().receiver == marshaller.View()
      && recvBytes == |received| && recvMessageCount == |marshaller.delivered|
    }

    ghost predicate Healthy()
      reads this, limiter, marshaller.Repr()
    {
      InStep() && Consumed().ok && marshaller.Valid() && limiter.Marked()
    }

    /** Exactly one of a read with room for a byte and an armed throttle timer; the limiter is below its
        limit in the first case and at it in the second. */
    ghost predicate Pumping()
      requires marshaller.recvBlock.Valid()
      reads this, limiter, marshaller.recvBlock
    {
      match reading
      case Some(room) => !throttleTimerRunning && 1 <= room == marshaller.recvBlock.Space() && limiter.badTime == 0
      case None => throttleTimerRunning && limiter.badTime != 0
    }

    ghost predicate Valid()
      reads this, limiter, marshaller.Repr()
    {
      && Separate() && marshaller.Sound()
      && (isOpen ==> InStep())
      && (isOpen && !failed ==> Healthy() && Pumping())
      && (failed || !isOpen ==> !throttleTimerRunning)
      && (isOpen && failed ==> reading.None?)
    }

    /** A session opens: the first read is posted. */
    constructor (marshaller: SgpMarshaller, limiter: BandwidthLimit)
      requires marshaller.Valid() && limiter !in marshaller.Repr() && limiter.Marked() && limiter.badTime == 0
      requires marshaller.recvBlock.Unread() == [] && marshaller.delivered == []
      requires 3 <= |marshaller.recvBlock.buffer|
      modifies marshaller.recvBlock
      ensures Valid() && isOpen && !failed && received == [] && reading.Some?
      ensures this.marshaller == marshaller && this.limiter == limiter
      ensures start == marshaller.packetCoder.keys.decryptState
    {
      this.marshaller, this.limiter := marshaller, limiter;
      isOpen, throttleTimerRunning, reading, failed := true, false, None, false;
      recvBytes, recvMessageCount := 0, 0;
      start, received := marshaller.packetCoder.keys.decryptState, [];
      new;
      EmptyIncomplete(marshaller.packetCoder.coder);
      ConsumeIdle(marshaller.packetCoder.coder, marshaller.accept, marshaller.View());
      ReadMessage();
    }

    /** Posts a read into the free space, of which there is some unless the block is full and tiny. */
    method ReadMessage()
      requires Separate() && marshaller.Sound()
      modifies this`reading, marshaller.recvBlock`buffer
      ensures marshaller.Sound() && (old(Healthy()) ==> Healthy())
      ensures |marshaller.recvBlock.buffer| >= old(|marshaller.recvBlock.buffer|)
      ensures reading == Some(marshaller.recvBlock.Space())
      ensures var spare := old(|marshaller.recvBlock.buffer|) / 3;
        |marshaller.recvBlock.buffer| ==
          if old(marshaller.recvBlock.Space()) < spare then marshaller.recvBlock.wrPtr + spare
          else old(|marshaller.recvBlock.buffer|)
      ensures reading.value >= 1 <==> old(marshaller.recvBlock.Space()) >= 1 || old(|marshaller.recvBlock.buffer|) >= 3
    {
      hide Consume;
      var spare := |marshaller.recvBlock.buffer| / 3;
      marshaller.recvBlock.Reserve(spare);
      reading := Some(marshaller.recvBlock.Space());
    }

    method StartThrottleTimer()
      modifies this`throttleTimerRunning
      ensures throttleTimerRunning
    {
      if throttleTimerRunning { return; }
      throttleTimerRunning := true;
    }

    /** What is unread leads where all bytes read so far lead. */
    ghost predicate Ahead()
      reads this, limiter, marshaller.Repr()
    {
      && Separate() && marshaller.Valid() && 3 <= |marshaller.recvBlock.buffer|
      && Consume(marshaller.packetCoder.coder, marshaller.accept, marshaller.View()) == Consumed()
      && recvBytes == |received| && recvMessageCount == |marshaller.delivered|
    }

    /** The socket has put `bytes` into the free space. */
    method TakeBytes(bytes: seq<byte>)
      requires InStep() && Consumed().ok && marshaller.Valid() && |bytes| <= marshaller.recvBlock.Space()
      modifies this`received, this`recvBytes, marshaller.recvBlock
      ensures Ahead() && received == old(received) + bytes
    {
      hide Consume;
      ghost var all := Receiver(start, [], received);
      ConsumeAppend(marshaller.packetCoder.coder, marshaller.accept, all, bytes);
      var block := marshaller.recvBlock;
      ghost var before := marshaller.View();
      block.Overwrite(block.wrPtr, bytes);
      block.wrPtr := block.wrPtr + |bytes|;
      assert block.Unread() == before.unread + bytes;
      KeepHeader(before.unread, bytes);
      assert marshaller.View() == More(before, bytes);
      received := received + bytes;
      recvBytes := recvBytes + |bytes|;
      assert More(all, bytes) == Receiver(start, [], received);
    }

    method UnmarshalReceived() returns (ok: bool)
      requires Ahead()
      modifies this`recvMessageCount, marshaller.Repr()
      ensures InStep() && ok == Consumed().ok && (ok ==> marshaller.Valid())
    {
      hide Consume;
      var count: nat;
      ok, count := marshaller.Unmarshal();
      recvMessageCount := recvMessageCount + count;
    }

    /** Counts the bytes received. The karma is gone exactly when the count reaches the limit and the throttling
        time has not passed since. */
    method AddInboundBandwidth(bytes: nat, addTime: int, checkTime: int) returns (karma: bool)
      requires limiter.Marked() && limiter.badTime == 0 && addTime != 0
      modifies limiter
      ensures limiter.Marked() && (karma <==> limiter.badTime == 0)
      ensures !karma <==>
        && 0 < limiter.maxBytesPerSecond <= old(limiter.readBytes) + bytes
        && checkTime - addTime < limiter.secondsForThrottling
      ensures !karma ==> limiter.readBytes == old(limiter.readBytes) + bytes && limiter.badTime == addTime
    {
      limiter.Add(bytes, addTime);
      karma := limiter.Check(checkTime);
    }

    /** Bytes arrive: they are counted and consumed, and then the next read is posted or, if the limiter
        refuses, the throttle timer armed; a packet that cannot be handed over ends reading. */
    method MessageBlockReceived(bytes: seq<byte>, addTime: int, checkTime: int) returns (ok: bool)
      requires Healthy() && isOpen && !failed && reading.None? && !throttleTimerRunning && limiter.badTime == 0
      requires |bytes| <= marshaller.recvBlock.Space() && addTime != 0
      modifies Repr()
      ensures isOpen && !failed && InStep() && start == old(start) && received == old(received) + bytes
      ensures ok == Consumed().ok
      ensures if ok then Healthy() && Pumping() else reading.None? && !throttleTimerRunning
      ensures ok ==>
        (throttleTimerRunning <==>
           && 0 < limiter.maxBytesPerSecond <= old(limiter.readBytes) + |bytes|
           && checkTime - addTime < limiter.secondsForThrottling)
      ensures ok && throttleTimerRunning ==> limiter.readBytes == old(limiter.readBytes) + |bytes|
    {
      hide Consume;
      TakeBytes(bytes);
      var karma := AddInboundBandwidth(|bytes|, addTime, checkTime);
      ok := UnmarshalReceived();
      if ok { GoOn(karma); }
    }

    /** After the bytes are consumed: the next read, or the throttle timer. */
    method GoOn(karma: bool)
      requires Healthy() && reading.None? && !throttleTimerRunning && (karma <==> limiter.badTime == 0)
      modifies this`reading, this`throttleTimerRunning, marshaller.recvBlock`buffer
      ensures Healthy() && Pumping() && (throttleTimerRunning <==> !karma)
    {
      hide Consume;
      if !karma {
        StartThrottleTimer();
      } else {
        ReadMessage();
      }
    }

    /** The read completes, with bytes or with an error. After either kind of failure reading stops. */
    method HandleRead(result: Option<seq<byte>>, addTime: int, checkTime: int)
      requires Valid() && isOpen && reading.Some?
      requires result.Some? ==> |result.value| <= reading.value && addTime != 0
      modifies Repr()
      ensures Valid() && isOpen && start == old(start)
      ensures received == old(received) + if result.Some? then result.value else []
      ensures failed <==> result.None? || !Consumed().ok
      ensures !failed ==>
        (throttleTimerRunning <==>
           && 0 < limiter.maxBytesPerSecond <= old(limiter.readBytes) + |result.value|
           && checkTime - addTime < limiter.secondsForThrottling)
    {
      hide Consume, SgpMarshaller.Valid, SgpMarshaller.View;
      reading := None;
      var ok := false;
      if result.Some? {
        ok := MessageBlockReceived(result.value, addTime, checkTime);
      }
      if !ok { failed := true; }
    }

    /** The throttle timer expires: counting starts over and the next read is posted. */
    method HandleTimeout()
      requires Valid() && isOpen
      modifies Repr()
      ensures Valid() && isOpen && start == old(start) && received == old(received) && failed == old(failed)
      ensures old(throttleTimerRunning) ==> reading.Some? && limiter.readBytes == 0
      ensures !old(throttleTimerRunning) ==> reading == old(reading) && limiter.readBytes == old(limiter.readBytes)
    {
      hide Consume;
      if throttleTimerRunning {
        throttleTimerRunning := false;
        limiter.Reset();
        ReadMessage();
      }
      throttleTimerRunning := false;
    }

    /** A disconnect that is not held back by a reserved one. */
    method HandleDisconnect()
      requires Valid()
      modifies Repr()
      ensures Valid() && !isOpen && start == old(start) && received == old(received)
      ensures old(isOpen) ==>
        && recvBytes == recvMessageCount == 0 && limiter.readBytes == 0 && limiter.badTime == 0
        && marshaller.recvBlock.Unread() == [] && !marshaller.header.IsValid()
    {
      hide Consume, SgpMarshaller.View;
      if isOpen {
        isOpen, throttleTimerRunning := false, false;
        recvBytes, recvMessageCount := 0, 0;
        marshaller.Reset();
        limiter.Reset();
      }
    }

    method Step(e: Event)
      requires Valid() && ClockRuns(e)
      modifies Repr()
      ensures Valid() && start == old(start) && received == old(received) + Taken(e, old(isOpen), old(reading))
      ensures isOpen == (old(isOpen) && !e.Disconnect?)
    {
      match e
      case Arrive(bytes, addTime, checkTime) =>
        if isOpen && reading.Some? && |bytes| <= reading.value { HandleRead(Some(bytes), addTime, checkTime); }
      case ReadFails => if isOpen && reading.Some? { HandleRead(None, 0, 0); }
      case ThrottleTimeout => if isOpen { HandleTimeout(); }
      case Disconnect => HandleDisconnect();
    }
  }

  /** The bytes an event brings: those of a read that was posted with room for them. */
  function Taken(e: Event, isOpen: bool, reading: Option<nat>): (bytes: seq<byte>)
  {
    if e.Arrive? && isOpen && reading.Some? && |e.bytes| <= reading.value then e.bytes else []
  }

  /** Every run of one connection keeps the read side valid, whatever the chunks and the throttling. */
  method Serve(reader: TcpReader, events: seq<Event>)
    requires reader.Valid() && forall i | 0 <= i < |events| :: ClockRuns(events[i])
    modifies reader.Repr()
    ensures reader.Valid() && reader.start == old(reader.start) && old(reader.received) <= reader.received
    ensures reader.isOpen ==> old(reader.isOpen) && Disconnect !in events
  {
    hide TcpReader.Valid, TcpReader.InStep, TcpReader.Healthy, TcpReader.Pumping;
    for i := 0 to |events|
      invariant reader.Valid() && reader.start == old(reader.start) && old(reader.received) <= reader.received
      invariant reader.isOpen ==> old(reader.isOpen) && Disconnect !in events[..i]
    {
      reader.Step(events[i]);
    }
  }

  /** At any moment of any run, if what was read is a prefix of what the peer sent, then what was handed over
      is a prefix of the peer's messages, and reading stops only for an error of the socket. Once all is read,
      all is handed over if and only if every padded body fits the size field, and then nothing is left. */
  lemma HandedOver(reader: TcpReader, messages: seq<Message>)
    requires reader.Valid() && reader.isOpen && Accepting(reader.marshaller.accept)
    requires reader.received <= Stream(reader.marshaller.packetCoder.coder, reader.start, messages)
    ensures AllSendable(reader.marshaller.packetCoder.coder, messages) ==>
      reader.Consumed().ok && reader.marshaller.delivered <= Arrived(reader.marshaller.packetCoder.coder, messages)
    ensures var c := reader.marshaller.packetCoder.coder;
      reader.received == Stream(c, reader.start, messages) ==>
        && (reader.marshaller.delivered == Arrived(c, messages) <==> AllSendable(c, messages))
        && (AllSendable(c, messages) ==>
              reader.recvMessageCount == |messages| && reader.marshaller.recvBlock.Unread() == [])
  {
    hide Consume, Stream, Arrived, AllSendable;
    var c, accept := reader.marshaller.packetCoder.coder, reader.marshaller.accept;
    if AllSendable(c, messages) { PrefixDelivered(c, accept, reader.start, messages, reader.received); }
    DeliveredIffSendable(c, accept, reader.start, [], messages);
    assert [] + Arrived(c, messages) == Arrived(c, messages);
  }
}
