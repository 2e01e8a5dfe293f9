/** The write side of one TCP connection, from open to reset: the output queue, the one write in
    flight and the gather batches. Each handler is one atomic step. `Session` is the state with its
    history; the functions on it say what the handlers do, and the laws say what every run keeps. */
module WriteSession {
  import opened Wrappers

  /** A memory block handed to the session, by address. */
  type Block = int

  const MAX_GATHER_WRITE_COUNT: nat := 10

  datatype History = History(
    given: multiset<Block>,     // handed to SendMessage
    accepted: seq<Block>,       // queued or written by SendMessage
    batches: seq<seq<Block>>,   // one entry for each asynchronous write
    completed: seq<Block>,      // reported as sent
    released: multiset<Block>,  // given back to their owner
    dropped: multiset<Block>,   // forgotten without being released
    failed: bool)               // some write reported an error

  datatype Session = Session(
    maxPendable: nat,           // 0: no limit
    isOpen: bool,
    disconnectReserved: bool,   // the disconnect timer is running
    isWritePended: bool,
    outputQueue: seq<Block>,
    outputMemoryBlocks: seq<Block>,
    sentMessageCount: nat,
    single: Option<Block>,      // the single write the socket owes a completion for
    gatherPending: bool,        // the socket owes the completion of a gather write
    h: History)

  datatype Event =
    | Send(block: Block, marshalled: bool)
    | WriteDone(succeeded: bool)
    | GatherDone(succeeded: bool)
    | Disconnect
    | DisconnectGracefully
    | DisconnectTimeout(error: bool)

  // ---- the state and its parts ----

  function InFlight(s: Session): (r: seq<Block>)
  {
    match s.single
    case Some(block) => [block]
    case None => s.outputMemoryBlocks
  }

  predicate WriteOutstanding(s: Session)
  {
    s.single.Some? || s.gatherPending
  }

  predicate CanSendMessage(s: Session)
  {
    s.isOpen && !s.disconnectReserved
  }

  /** The queue is below its limit, if it has one. */
  predicate HasRoom(s: Session)
  {
    s.maxPendable == 0 || |s.outputQueue| < s.maxPendable
  }

  function BatchSize(queued: nat): (n: nat)
    ensures n <= queued && n <= MAX_GATHER_WRITE_COUNT
    ensures n == 0 <==> queued == 0
  {
    if queued < MAX_GATHER_WRITE_COUNT then queued else MAX_GATHER_WRITE_COUNT
  }

  function Flat(batches: seq<seq<Block>>): (r: seq<Block>)
  {
    if batches == [] then [] else Flat(batches[..|batches| - 1]) + batches[|batches| - 1]
  }

  /** A session that has just connected. */
  function Opened(maxPendable: nat): (s: Session)
  {
    Session(maxPendable, true, false, false, [], [], 0, None, false,
      History(multiset{}, [], [], [], multiset{}, multiset{}, false))
  }

  // ---- what the handlers do ----

  function Written(s: Session, block: Block): (r: Session)
  {
    s.(single := Some(block), isWritePended := true, h := s.h.(batches := s.h.batches + [[block]]))
  }

  /** The head of the queue, at most ten blocks of it, goes into one write. */
  function Gathered(s: Session): (r: Session)
  {
    var n := BatchSize(|s.outputQueue|);
    var batch, rest := s.outputQueue[..n], s.outputQueue[n..];
    if n == 0 then s
    else if |s.outputQueue| == 1 then Written(s.(outputQueue := rest), s.outputQueue[0])
    else s.(outputQueue := rest, outputMemoryBlocks := batch, gatherPending := true,
            isWritePended := true, h := s.h.(batches := s.h.batches + [batch]))
  }

  predicate Accepts(s: Session, marshalled: bool)
  {
    CanSendMessage(s) && marshalled && (s.isWritePended ==> HasRoom(s))
  }

  function Sent(s: Session, block: Block, marshalled: bool): (r: Session)
  {
    var g := s.h.(given := s.h.given + multiset{block});
    if !Accepts(s, marshalled) then s.(h := g.(released := g.released + multiset{block}))
    else
      var t := s.(h := g.(accepted := g.accepted + [block]));
      if s.isWritePended then t.(outputQueue := s.outputQueue + [block]) else Written(t, block)
  }

  /** The socket is done with `blocks`: they are released, and sent if the write succeeded. */
  function Ended(s: Session, blocks: seq<Block>, succeeded: bool): (r: Session)
  {
    var t := s.(single := None, outputMemoryBlocks := [], gatherPending := false);
    var h := s.h.(released := s.h.released + multiset(blocks));
    if !succeeded then t.(h := h.(failed := true))
    else t.(isWritePended := s.isWritePended && blocks == [], sentMessageCount := s.sentMessageCount + |blocks|,
            h := h.(completed := h.completed + blocks))
  }

  function WriteEnded(s: Session, succeeded: bool): (r: Session)
  {
    var t := Ended(s, InFlight(s), succeeded);
    if succeeded then Gathered(t) else t
  }

  function Flushed(s: Session): (r: Session)
  {
    s.(outputQueue := [], h := s.h.(released := s.h.released + multiset(s.outputQueue)))
  }

  function Forgotten(s: Session): (r: Session)
  {
    s.(outputMemoryBlocks := [], h := s.h.(dropped := s.h.dropped + multiset(s.outputMemoryBlocks)))
  }

  /** The queue is released, and a gather batch in flight is forgotten. */
  function Closed(s: Session): (r: Session)
  {
    Forgotten(Flushed(s)).(isOpen := false, disconnectReserved := false, isWritePended := false, sentMessageCount := 0)
  }

  function Disconnected(s: Session): (r: Session)
  {
    if CanSendMessage(s) then Closed(s) else s
  }

  /** One step of a run. A completion that the socket does not owe does not happen. */
  function Next(s: Session, e: Event): (r: Session)
  {
    match e
    case Send(block, marshalled) => Sent(s, block, marshalled)
    case WriteDone(succeeded) => if s.single.Some? then WriteEnded(s, succeeded) else s
    case GatherDone(succeeded) => if s.gatherPending then WriteEnded(s, succeeded) else s
    case Disconnect => Disconnected(s)
    case DisconnectGracefully => s.(disconnectReserved := true)
    case DisconnectTimeout(_) => s.(disconnectReserved := false)
  }

  function Run(s: Session, events: seq<Event>): (r: Session)
  {
    if events == [] then s else Next(Run(s, events[..|events| - 1]), events[|events| - 1])
  }

  // ---- what every run keeps ----

  /** Every block handed over is in exactly one place: queued, in flight, released or dropped. */
  predicate Conserved(s: Session)
  {
    s.h.given == multiset(s.outputQueue) + multiset(InFlight(s)) + s.h.released + s.h.dropped
  }

  /** What was reported as sent is a prefix of what was written, which is one of what was accepted;
      while the connection is open the rest is queued, and until a write fails the gap is in flight. */
  predicate InOrder(s: Session)
  {
    && s.h.completed <= Flat(s.h.batches) <= s.h.accepted
    && (s.isOpen ==> s.h.accepted == Flat(s.h.batches) + s.outputQueue)
    && (s.isOpen && !s.h.failed ==> Flat(s.h.batches) == s.h.completed + InFlight(s))
    && (s.single.Some? ==> Flat(s.h.batches) == s.h.completed + InFlight(s))
  }

  /** A write is pended exactly while one is in flight; a failed write leaves the flag set. */
  predicate OneWrite(s: Session)
  {
    && !(s.single.Some? && s.gatherPending)
    && (s.outputMemoryBlocks != [] <==> s.gatherPending && s.isOpen)
    && (s.isOpen ==> s.isWritePended == (WriteOutstanding(s) || s.h.failed))
    && (s.isOpen && s.h.failed ==> !WriteOutstanding(s))
    && (s.outputQueue != [] ==> s.isWritePended)
    && (!s.isOpen ==> s.outputQueue == [] && !s.isWritePended)
  }

  predicate Bounded(s: Session)
  {
    && (forall i | 0 <= i < |s.h.batches| :: 1 <= |s.h.batches[i]| <= MAX_GATHER_WRITE_COUNT)
    && (0 < s.maxPendable ==> |s.outputQueue| <= s.maxPendable)
    && (s.isOpen ==> s.sentMessageCount == |s.h.completed|)
  }

  predicate Invariant(s: Session)
  {
    Conserved(s) && InOrder(s) && OneWrite(s) && Bounded(s)
  }

  lemma FlatSnoc(batches: seq<seq<Block>>, batch: seq<Block>)
    ensures Flat(batches + [batch]) == Flat(batches) + batch
  {
    assert (batches + [batch])[..|batches|] == batches;
  }

  /** Starting the next write moves blocks from the queue into flight and nothing else. */
  lemma GatheredMoves(s: Session)
    requires !WriteOutstanding(s) && s.outputMemoryBlocks == []
    ensures var t := Gathered(s);
      && InFlight(t) + t.outputQueue == s.outputQueue
      && multiset(InFlight(t)) + multiset(t.outputQueue) == multiset(s.outputQueue)
      && Flat(t.h.batches) == Flat(s.h.batches) + InFlight(t)
      && |InFlight(t)| == (if |s.outputQueue| < 10 then |s.outputQueue| else 10)
  {
    var t := Gathered(s);
    var n := BatchSize(|s.outputQueue|);
    var batch, rest := s.outputQueue[..n], s.outputQueue[n..];
    assert s.outputQueue == batch + rest;
    if n > 0 {
      FlatSnoc(s.h.batches, batch);
      if |s.outputQueue| == 1 { assert batch == [s.outputQueue[0]]; }
    }
    assert InFlight(t) == batch && t.outputQueue == rest;
  }

  lemma SentConserves(s: Session, block: Block, marshalled: bool)
    requires Conserved(s) && OneWrite(s)
    ensures Conserved(Sent(s, block, marshalled))
  {
    var t := Sent(s, block, marshalled);
    if Accepts(s, marshalled) && !s.isWritePended {
      assert InFlight(s) == [] && InFlight(t) == [block];
    }
  }

  lemma SentInOrder(s: Session, block: Block, marshalled: bool)
    requires InOrder(s) && OneWrite(s)
    ensures InOrder(Sent(s, block, marshalled))
  {
    hide Flat;
    var t := Sent(s, block, marshalled);
    if Accepts(s, marshalled) {
      assert t.h.accepted == Flat(s.h.batches) + (s.outputQueue + [block]);
      if !s.isWritePended { FlatSnoc(s.h.batches, [block]); }
    }
  }

  lemma SentKeeps(s: Session, block: Block, marshalled: bool)
    requires Invariant(s)
    ensures Invariant(Sent(s, block, marshalled))
  {
    var t := Sent(s, block, marshalled);
    assert Conserved(t) by { SentConserves(s, block, marshalled); }
    assert InOrder(t) by { SentInOrder(s, block, marshalled); }
    hide Conserved;
    hide InOrder;
    assert Bounded(t);
  }

  lemma EndedReleases(s: Session, succeeded: bool)
    requires Conserved(s)
    ensures Conserved(Ended(s, InFlight(s), succeeded))
  {
    assert InFlight(Ended(s, InFlight(s), succeeded)) == [];
  }

  lemma GatheredFrame(s: Session)
    ensures var t := Gathered(s);
      && t.h.given == s.h.given && t.h.released == s.h.released && t.h.dropped == s.h.dropped
      && t.h.accepted == s.h.accepted && t.h.completed == s.h.completed && t.h.failed == s.h.failed
      && t.isOpen == s.isOpen
  {
  }

  lemma GatheredConserves(s: Session)
    requires Conserved(s) && !WriteOutstanding(s) && s.outputMemoryBlocks == []
    ensures Conserved(Gathered(s))
  {
    GatheredMoves(s);
    assert InFlight(s) == [];
    GatheredFrame(s);
    hide Gathered, Flat;
  }

  lemma EndedConserves(s: Session, succeeded: bool)
    requires Conserved(s)
    ensures Conserved(WriteEnded(s, succeeded))
  {
    EndedReleases(s, succeeded);
    if succeeded { GatheredConserves(Ended(s, InFlight(s), succeeded)); }
  }

  lemma EndedPrefix(s: Session, succeeded: bool)
    requires InOrder(s) && OneWrite(s) && WriteOutstanding(s)
    ensures InOrder(Ended(s, InFlight(s), succeeded))
  {
    hide Flat;
  }

  lemma Regroup(a: seq<Block>, b: seq<Block>, c: seq<Block>)
    ensures a + (b + c) == (a + b) + c && a + [] == a
  {
  }

  lemma GatheredInOrder(s: Session)
    requires InOrder(s) && !WriteOutstanding(s) && s.outputMemoryBlocks == []
    requires if s.isOpen then !s.h.failed else s.outputQueue == []
    ensures InOrder(Gathered(s))
  {
    hide Flat, Gathered;
    GatheredMoves(s);
    GatheredFrame(s);
    var t := Gathered(s);
    Regroup(Flat(s.h.batches), InFlight(t), t.outputQueue);
    assert InFlight(s) == [];
    if !s.isOpen { assert InFlight(t) == []; }
  }

  lemma EndedInOrder(s: Session, succeeded: bool)
    requires InOrder(s) && OneWrite(s) && WriteOutstanding(s)
    ensures InOrder(WriteEnded(s, succeeded))
  {
    EndedPrefix(s, succeeded);
    hide InOrder, Gathered;
    if succeeded { GatheredInOrder(Ended(s, InFlight(s), succeeded)); }
  }

  lemma EndedOneWrite(s: Session, succeeded: bool)
    requires OneWrite(s) && Bounded(s) && WriteOutstanding(s)
    ensures OneWrite(WriteEnded(s, succeeded)) && Bounded(WriteEnded(s, succeeded))
  {
  }

  lemma WriteEndedKeeps(s: Session, succeeded: bool)
    requires Invariant(s) && WriteOutstanding(s)
    ensures Invariant(WriteEnded(s, succeeded))
  {
    EndedConserves(s, succeeded);
    EndedInOrder(s, succeeded);
    EndedOneWrite(s, succeeded);
  }

  lemma ClosedConserves(s: Session)
    requires Conserved(s) && OneWrite(s)
    ensures Conserved(Closed(s))
  {
    var t := Closed(s);
    assert multiset(InFlight(s)) == multiset(InFlight(t)) + multiset(s.outputMemoryBlocks);
  }

  lemma ClosedInOrder(s: Session)
    requires InOrder(s)
    ensures InOrder(Closed(s))
  {
    hide Flat;
  }

  lemma ClosedKeeps(s: Session)
    requires Invariant(s) && s.isOpen
    ensures Invariant(Closed(s))
  {
    ClosedConserves(s);
    ClosedInOrder(s);
    hide Conserved, InOrder;
  }

  lemma NextKeeps(s: Session, e: Event)
    requires Invariant(s)
    ensures Invariant(Next(s, e))
  {
    match e
    case Send(block, marshalled) => SentKeeps(s, block, marshalled);
    case WriteDone(succeeded) => if s.single.Some? { WriteEndedKeeps(s, succeeded); }
    case GatherDone(succeeded) => if s.gatherPending { WriteEndedKeeps(s, succeeded); }
    case Disconnect => if CanSendMessage(s) { ClosedKeeps(s); }
    case _ =>
  }

  /** The invariant holds after every run of one connection. */
  lemma {:induction false} RunKeeps(maxPendable: nat, events: seq<Event>)
    ensures Invariant(Run(Opened(maxPendable), events))
  {
    if events != [] {
      RunKeeps(maxPendable, events[..|events| - 1]);
      NextKeeps(Run(Opened(maxPendable), events[..|events| - 1]), events[|events| - 1]);
    }
  }

  // ---- consequences for whole runs ----

  /** The blocks handed over by a run, in order. */
  function SentBlocks(events: seq<Event>): (r: seq<Block>)
  {
    if events == [] then []
    else
      var last := events[|events| - 1];
      SentBlocks(events[..|events| - 1]) + if last.Send? then [last.block] else []
  }

  /** A message the marshaller takes, or a write that succeeds. */
  predicate Undisturbed(e: Event)
  {
    (e.Send? && e.marshalled) || (e.WriteDone? && e.succeeded) || (e.GatherDone? && e.succeeded)
  }

  /** A block is released and dropped, over a whole run, at most as often as it was handed over; of a
      block handed over once, exactly one of the four places holds it. */
  lemma {:induction false} RunConserves(maxPendable: nat, events: seq<Event>, block: Block)
    ensures var s := Run(Opened(maxPendable), events);
      multiset(SentBlocks(events))[block]
        == multiset(s.outputQueue)[block] + multiset(InFlight(s))[block] + s.h.released[block] + s.h.dropped[block]
  {
    RunKeeps(maxPendable, events);
    RunGiven(maxPendable, events);
  }

  lemma {:induction false} RunGiven(maxPendable: nat, events: seq<Event>)
    ensures Run(Opened(maxPendable), events).h.given == multiset(SentBlocks(events))
  {
    if events != [] {
      var before := Run(Opened(maxPendable), events[..|events| - 1]);
      RunGiven(maxPendable, events[..|events| - 1]);
      NextGiven(before, events[|events| - 1]);
    }
  }

  lemma NextGiven(s: Session, e: Event)
    ensures Next(s, e).h.given == if e.Send? then s.h.given + multiset{e.block} else s.h.given
  {
    hide WriteEnded, Sent, Closed;
    match e
    case Send(block, marshalled) => SentGiven(s, block, marshalled);
    case WriteDone(succeeded) => EndedGiven(s, succeeded);
    case GatherDone(succeeded) => EndedGiven(s, succeeded);
    case Disconnect => ClosedGiven(s);
    case _ =>
  }

  lemma SentGiven(s: Session, block: Block, marshalled: bool)
    ensures Sent(s, block, marshalled).h.given == s.h.given + multiset{block}
  {
  }

  lemma EndedGiven(s: Session, succeeded: bool)
    ensures WriteEnded(s, succeeded).h.given == s.h.given && WriteEnded(s, succeeded).h.dropped == s.h.dropped
  {
    hide BatchSize;
  }

  lemma ClosedGiven(s: Session)
    ensures Closed(s).h.given == s.h.given
    ensures Closed(s).h.dropped == s.h.dropped + multiset(s.outputMemoryBlocks)
  {
  }

  /** The one step that drops a block unreleased is a reset with a gather write in flight. */
  lemma DroppedOnlyByReset(s: Session, e: Event)
    requires Invariant(s)
    ensures Next(s, e).h.dropped != s.h.dropped <==> e.Disconnect? && CanSendMessage(s) && s.gatherPending
    ensures Next(s, e).h.dropped == s.h.dropped || Next(s, e).h.dropped == s.h.dropped + multiset(InFlight(s))
  {
    hide WriteEnded, Closed, Conserved, InOrder, Bounded;
    match e
    case WriteDone(succeeded) => EndedGiven(s, succeeded);
    case GatherDone(succeeded) => EndedGiven(s, succeeded);
    case Disconnect =>
      ClosedGiven(s);
      if CanSendMessage(s) { MoreIfNonempty(s.h.dropped, s.outputMemoryBlocks); }
    case _ =>
  }

  lemma MoreIfNonempty(m: multiset<Block>, blocks: seq<Block>)
    ensures m + multiset(blocks) != m <==> blocks != []
  {
    if blocks != [] { assert (m + multiset(blocks))[blocks[0]] > m[blocks[0]]; }
  }

  lemma RunNext(s: Session, events: seq<Event>, e: Event)
    ensures Run(s, events + [e]) == Next(Run(s, events), e)
  {
    assert (events + [e])[..|events|] == events;
  }

  lemma FirstThree()
    ensures var s := Next(Next(Next(Opened(0), Send(1, true)), Send(2, true)), Send(3, true));
      && CanSendMessage(s) && s.single == Some(1) && !s.gatherPending && s.outputQueue == [2, 3]
      && s.h.released == s.h.dropped == multiset{}
  {
    var s2 := Next(Next(Opened(0), Send(1, true)), Send(2, true));
    assert s2.outputQueue == [2];
  }

  /** Three blocks sent at once: one in flight, two queued. */
  lemma ThreeSent()
    ensures var s := Run(Opened(0), [Send(1, true), Send(2, true), Send(3, true)]);
      && CanSendMessage(s) && s.single == Some(1) && !s.gatherPending && s.outputQueue == [2, 3]
      && s.h.released == s.h.dropped == multiset{}
  {
    hide Next;
    FirstThree();
    var a, b, c := Send(1, true), Send(2, true), Send(3, true);
    assert Run(Opened(0), []) == Opened(0);
    RunNext(Opened(0), [], a);
    RunNext(Opened(0), [a], b);
    RunNext(Opened(0), [a, b], c);
    assert [] + [a] == [a] && [a] + [b] == [a, b] && [a, b] + [c] == [a, b, c];
  }

  lemma TwoGathered(s: Session)
    requires CanSendMessage(s) && s.single == Some(1) && !s.gatherPending && s.outputQueue == [2, 3]
    requires s.h.released == s.h.dropped == multiset{}
    ensures var t := Next(Next(s, WriteDone(true)), Disconnect);
      t.h.dropped == multiset{2, 3} && t.h.released == multiset{1}
  {
    var u := Next(s, WriteDone(true));
    assert u.outputMemoryBlocks == [2, 3] && u.outputQueue == [] && CanSendMessage(u);
    assert multiset(u.outputMemoryBlocks) == multiset{2, 3};
  }

  /** Such a reset can happen: two of three blocks are still in a gather write when the session disconnects. */
  lemma GatherDroppedAtReset()
    ensures var s := Run(Opened(0), [Send(1, true), Send(2, true), Send(3, true), WriteDone(true), Disconnect]);
      s.h.dropped == multiset{2, 3} && s.h.released == multiset{1}
  {
    var three := [Send(1, true), Send(2, true), Send(3, true)];
    ThreeSent();
    TwoGathered(Run(Opened(0), three));
    hide Next, Run;
    RunNext(Opened(0), three, WriteDone(true));
    RunNext(Opened(0), three + [WriteDone(true)], Disconnect);
    assert three + [WriteDone(true)] + [Disconnect]
        == [Send(1, true), Send(2, true), Send(3, true), WriteDone(true), Disconnect];
  }

  /** With no limit on the queue, a run of messages the marshaller takes and writes that succeed, in any
      interleaving, accepts every block handed over, in order: sent, then in flight, then queued. */
  lemma {:induction false} RunDelivers(events: seq<Event>)
    requires forall i | 0 <= i < |events| :: Undisturbed(events[i])
    ensures var s := Run(Opened(0), events);
      && CanSendMessage(s) && !s.h.failed && s.maxPendable == 0
      && s.h.accepted == SentBlocks(events) == s.h.completed + InFlight(s) + s.outputQueue
      && (!WriteOutstanding(s) ==> s.h.completed == SentBlocks(events))
  {
    if events != [] {
      var before, e := Run(Opened(0), events[..|events| - 1]), events[|events| - 1];
      RunDelivers(events[..|events| - 1]);
      NextAccepts(before, e);
    }
    RunKeeps(0, events);
  }

  lemma NextAccepts(s: Session, e: Event)
    requires CanSendMessage(s) && !s.h.failed && s.maxPendable == 0 && Undisturbed(e)
    ensures var t := Next(s, e);
      && CanSendMessage(t) && !t.h.failed && t.maxPendable == 0
      && t.h.accepted == s.h.accepted + if e.Send? then [e.block] else []
  {
  }

  // ---- exactly what is accepted ----

  /** A message is accepted, at the end of the order, exactly when the connection is open, no disconnect is
      reserved, the marshaller took it, and no write is pended or the queue is below its limit, if there is one.
      Otherwise its block is released at once. */
  lemma AcceptedExactly(s: Session, block: Block, marshalled: bool)
    ensures var t := Sent(s, block, marshalled);
      var taken := s.isOpen && !s.disconnectReserved && marshalled
                   && (s.isWritePended ==> s.maxPendable == 0 || |s.outputQueue| + 1 <= s.maxPendable);
      && t.h.accepted == s.h.accepted + (if taken then [block] else [])
      && t.h.released == s.h.released + (if taken then multiset{} else multiset{block})
  {
  }

  /** A run of messages the marshaller takes, with no completion between them. */
  function Burst(blocks: seq<Block>): (events: seq<Event>)
    ensures |events| == |blocks|
  {
    seq(|blocks|, i requires 0 <= i < |blocks| => Send(blocks[i], true))
  }

  predicate AfterBurst(s: Session, limit: nat, blocks: seq<Block>)
  {
    var n := if |blocks| <= limit + 1 then |blocks| else limit + 1;
    && s.h.accepted == blocks[..n] && s.h.released == multiset(blocks[n..])
    && s.isOpen && !s.disconnectReserved && s.maxPendable == limit
    && s.isWritePended == (blocks != []) && |s.outputQueue| == if n == 0 then 0 else n - 1
  }

  lemma BurstSplit(before: seq<Block>, block: Block, limit: nat)
    ensures var blocks := before + [block];
      if |before| <= limit then
        && before[..|before|] == before && blocks[..|blocks|] == before + [block]
        && multiset(before[|before|..]) == multiset(blocks[|blocks|..]) == multiset{}
      else
        && blocks[..limit + 1] == before[..limit + 1]
        && multiset(blocks[limit + 1..]) == multiset(before[limit + 1..]) + multiset{block}
  {
    var blocks := before + [block];
    if |before| <= limit {
      assert blocks[|blocks|..] == [] && before[|before|..] == [];
    } else {
      assert blocks[limit + 1..] == before[limit + 1..] + [block];
    }
  }

  lemma SentState(s: Session, block: Block)
    requires s.isOpen && !s.disconnectReserved && 0 < s.maxPendable
    requires s.isWritePended || s.outputQueue == []
    ensures var t := Next(s, Send(block, true));
      && t.isOpen && !t.disconnectReserved && t.maxPendable == s.maxPendable && t.isWritePended
      && |t.outputQueue| == |s.outputQueue| + if s.isWritePended && |s.outputQueue| < s.maxPendable then 1 else 0
  {
  }

  lemma BurstNext(s: Session, limit: nat, before: seq<Block>, block: Block)
    requires AfterBurst(s, limit, before) && 0 < limit
    ensures AfterBurst(Next(s, Send(block, true)), limit, before + [block])
  {
    SentState(s, block);
    AcceptedExactly(s, block, true);
    BurstSplit(before, block, limit);
    hide Sent;
  }

  lemma {:induction false} BurstRun(limit: nat, blocks: seq<Block>)
    requires 0 < limit
    ensures AfterBurst(Run(Opened(limit), Burst(blocks)), limit, blocks)
    decreases |blocks|
  {
    if blocks == [] {
      assert Burst(blocks) == [];
    } else {
      var before, block := blocks[..|blocks| - 1], blocks[|blocks| - 1];
      assert blocks == before + [block] && Burst(blocks) == Burst(before) + [Send(block, true)];
      hide Next, AfterBurst, Run;
      BurstRun(limit, before);
      RunNext(Opened(limit), Burst(before), Send(block, true));
      BurstNext(Run(Opened(limit), Burst(before)), limit, before, block);
    }
  }

  /** Of a burst a limited session accepts one block for the write in flight and as many as the limit for the
      queue, the first ones in their order, and releases the others. */
  lemma BurstAccepted(limit: nat, blocks: seq<Block>)
    requires 0 < limit
    ensures var h, n := Run(Opened(limit), Burst(blocks)).h, if |blocks| <= limit + 1 then |blocks| else limit + 1;
      h.accepted == blocks[..n] && h.released == multiset(blocks[n..])
  {
    hide Run;
    BurstRun(limit, blocks);
  }

  /** Once a disconnect is reserved, and until the timer speaks, nothing more is accepted and no posted disconnect
      closes the connection; writes go on. */
  lemma {:induction false} ReservedHolds(s: Session, events: seq<Event>)
    requires forall i | 0 <= i < |events| :: !events[i].DisconnectTimeout?
    ensures var t := Run(Next(s, DisconnectGracefully), events);
      t.h.accepted == s.h.accepted && t.isOpen == s.isOpen && t.disconnectReserved
  {
    if events != [] {
      ReservedHolds(s, events[..|events| - 1]);
      ReservedNext(Run(Next(s, DisconnectGracefully), events[..|events| - 1]), events[|events| - 1]);
    }
  }

  lemma ReservedNext(s: Session, e: Event)
    requires s.disconnectReserved && !e.DisconnectTimeout?
    ensures Next(s, e).h.accepted == s.h.accepted && Next(s, e).isOpen == s.isOpen && Next(s, e).disconnectReserved
  {
    hide WriteEnded, Closed;
    match e
    case WriteDone(succeeded) => EndedFrame(s, succeeded);
    case GatherDone(succeeded) => EndedFrame(s, succeeded);
    case _ =>
  }

  lemma EndedFrame(s: Session, succeeded: bool)
    ensures var t := WriteEnded(s, succeeded);
      t.h.accepted == s.h.accepted && t.isOpen == s.isOpen && t.disconnectReserved == s.disconnectReserved
  {
    hide BatchSize;
  }

  /** A disconnect that is not held back closes the connection and leaves nothing queued, pended or reserved. */
  lemma DisconnectCloses(s: Session)
    requires s.isOpen && !s.disconnectReserved
    ensures var t := Next(s, Disconnect);
      && !t.isOpen && !t.disconnectReserved && !t.isWritePended && t.sentMessageCount == 0
      && t.outputQueue == t.outputMemoryBlocks == []
      && t.h.released == s.h.released + multiset(s.outputQueue)
      && t.h.dropped == s.h.dropped + multiset(s.outputMemoryBlocks)
  {
  }

  /** The socket completes `n` writes in a row, as far as it has any to complete. */
  function Completing(s: Session, n: nat): (r: Session)
    decreases n
  {
    if n == 0 || !WriteOutstanding(s) then s else Completing(WriteEnded(s, true), n - 1)
  }

  /** The write in flight, and one write for each ten queued blocks. */
  function WritesLeft(s: Session): (n: nat)
  {
    if WriteOutstanding(s) then 1 + (|s.outputQueue| + 9) / MAX_GATHER_WRITE_COUNT else 0
  }

  /** That many completions, and no fewer, send everything accepted. */
  lemma {:induction false} DrainSends(s: Session, n: nat)
    requires Invariant(s) && s.isOpen && !s.h.failed
    ensures var t := Completing(s, n);
      && Invariant(t) && t.isOpen && !t.h.failed && t.h.accepted == s.h.accepted
      && (t.h.completed == t.h.accepted <==> WritesLeft(s) <= n)
    decreases n
  {
    hide WriteEnded;
    hide Flat;
    hide Conserved;
    hide Bounded;
    if WriteOutstanding(s) {
      assert InFlight(s) != [];
      if n > 0 {
        WriteEndedKeeps(s, true);
        EndedShrinks(s);
        DrainSends(WriteEnded(s, true), n - 1);
      }
    }
  }

  lemma EndedShrinks(s: Session)
    requires Invariant(s) && WriteOutstanding(s)
    ensures var t := WriteEnded(s, true);
      && WritesLeft(t) == WritesLeft(s) - 1
      && t.isOpen == s.isOpen && t.h.failed == s.h.failed && t.h.accepted == s.h.accepted
  {
    hide Flat, Conserved, InOrder;
    var t := Ended(s, InFlight(s), true);
    GatheredMoves(t);
    EndedFrame(s, true);
    EndedOneWrite(s, true);
    hide Bounded;
  }

  // ---- the session itself ----

  /** Blocks released, the first `n` of them reported as sent. */
  function Reported(h: History, blocks: seq<Block>, n: nat): (r: History)
    requires n <= |blocks|
  {
    h.(completed := h.completed + blocks[..n], released := h.released + multiset(blocks))
  }

  lemma ReportedNext(h: History, blocks: seq<Block>, i: nat, succeeded: bool)
    requires i < |blocks|
    ensures var b, n := blocks[i], if succeeded then i else 0;
      var r := Reported(h, blocks[..i], n);
      Reported(h, blocks[..i + 1], if succeeded then i + 1 else 0)
        == r.(completed := r.completed + (if succeeded then [b] else []), released := r.released + multiset{b})
  {
    assert blocks[..i + 1] == blocks[..i] + [blocks[i]];
    assert blocks[..i + 1][..i + 1] == blocks[..i + 1] && blocks[..i][..i] == blocks[..i];
    if succeeded {
      assert h.completed + (blocks[..i] + [blocks[i]]) == h.completed + blocks[..i] + [blocks[i]];
    }
  }

  class TcpSession {
    const maxPendable: nat
    var isOpen: bool
    var disconnectReserved: bool
    var isWritePended: bool
    var outputQueue: seq<Block>
    var outputMemoryBlocks: seq<Block>
    var sentMessageCount: nat
    var single: Option<Block>
    var gatherPending: bool
    ghost var h: History

    ghost function View(): (s: Session)
      reads this
    {
      Session(maxPendable, isOpen, disconnectReserved, isWritePended, outputQueue, outputMemoryBlocks,
        sentMessageCount, single, gatherPending, h)
    }

    constructor (maxPendable: nat)
      ensures View() == Opened(maxPendable)
    {
      this.maxPendable := maxPendable;
      isOpen, disconnectReserved, isWritePended := true, false, false;
      outputQueue, outputMemoryBlocks, sentMessageCount := [], [], 0;
      single, gatherPending := None, false;
      h := History(multiset{}, [], [], [], multiset{}, multiset{}, false);
    }

    method WriteMessage(block: Block)
      modifies this
      ensures View() == Written(old(View()), block)
    {
      single := Some(block);
      h := h.(batches := h.batches + [[block]]);
      isWritePended := true;
    }

    /** Moves the head of the queue into `outputMemoryBlocks`. */
    method PopBatch()
      requires outputQueue != []
      modifies this`outputQueue, this`outputMemoryBlocks
      ensures var n := BatchSize(|old(outputQueue)|);
        outputMemoryBlocks == old(outputQueue)[..n] && outputQueue == old(outputQueue)[n..]
    {
      ghost var queue := outputQueue;
      outputMemoryBlocks := [];
      while outputQueue != []
        invariant |queue| == |outputMemoryBlocks| + |outputQueue| && |outputMemoryBlocks| < MAX_GATHER_WRITE_COUNT
        invariant outputMemoryBlocks == queue[..|outputMemoryBlocks|] && outputQueue == queue[|outputMemoryBlocks|..]
        decreases |outputQueue|
      {
        outputMemoryBlocks := outputMemoryBlocks + [outputQueue[0]];
        outputQueue := outputQueue[1..];
        if |outputMemoryBlocks| >= MAX_GATHER_WRITE_COUNT { break; }
      }
    }

    method GatherWrite()
      modifies this
      ensures View() == Gathered(old(View()))
    {
      if |outputQueue| <= 0 { return; }
      if |outputQueue| >= 2 {
        PopBatch();
        h := h.(batches := h.batches + [outputMemoryBlocks]);
        gatherPending := true;
        isWritePended := true;
      } else {
        var block := outputQueue[0];
        outputQueue := outputQueue[1..];
        WriteMessage(block);
      }
    }

    method WriteSucceeded(block: Block)
      modifies this`isWritePended, this`sentMessageCount, this`h
      ensures !isWritePended && sentMessageCount == old(sentMessageCount) + 1
      ensures h == old(h).(completed := old(h).completed + [block])
    {
      isWritePended := false;
      sentMessageCount := sentMessageCount + 1;
      h := h.(completed := h.completed + [block]);
    }

    method SendMessage(block: Block, marshalled: bool)
      modifies this
      ensures View() == Sent(old(View()), block, marshalled)
    {
      h := h.(given := h.given + multiset{block});
      var isSucceeded := false;
      if isOpen && !disconnectReserved && marshalled {
        if isWritePended {
          if !(maxPendable > 0 && |outputQueue| >= maxPendable) {
            outputQueue := outputQueue + [block];
            isSucceeded := true;
          }
        } else {
          WriteMessage(block);
          isSucceeded := true;
        }
      }
      if isSucceeded {
        h := h.(accepted := h.accepted + [block]);
      } else {
        h := h.(released := h.released + multiset{block});
      }
    }

    method HandleWrite(succeeded: bool)
      requires single.Some? && !gatherPending && outputMemoryBlocks == []
      modifies this
      ensures View() == WriteEnded(old(View()), succeeded)
    {
      hide Gathered;
      var block := single.value;
      single := None;
      h := h.(released := h.released + multiset{block});
      if succeeded {
        WriteSucceeded(block);
        GatherWrite();
      } else {
        h := h.(failed := true);
      }
    }

    /** Each block of the batch is released, and after a success reported as sent first. */
    method ReleaseBatch(succeeded: bool)
      modifies this`isWritePended, this`sentMessageCount, this`h
      ensures var n := if succeeded then |outputMemoryBlocks| else 0;
        && sentMessageCount == old(sentMessageCount) + n && isWritePended == (old(isWritePended) && n == 0)
      ensures h == old(h).(
        completed := old(h).completed + (if succeeded then outputMemoryBlocks else []),
        released := old(h).released + multiset(outputMemoryBlocks))
    {
      ghost var before := h;
      var i := 0;
      assert outputMemoryBlocks[..0] == [];
      while i < |outputMemoryBlocks|
        invariant i <= |outputMemoryBlocks|
        invariant h == Reported(before, outputMemoryBlocks[..i], if succeeded then i else 0)
        invariant sentMessageCount == old(sentMessageCount) + if succeeded then i else 0
        invariant isWritePended == (old(isWritePended) && (succeeded ==> i == 0))
      {
        ReportedNext(before, outputMemoryBlocks, i, succeeded);
        if succeeded { WriteSucceeded(outputMemoryBlocks[i]); }
        h := h.(released := h.released + multiset{outputMemoryBlocks[i]});
        i := i + 1;
      }
      assert outputMemoryBlocks[..i] == outputMemoryBlocks;
      assert outputMemoryBlocks[..0] == [];
    }

    method EndBatch(succeeded: bool)
      requires single.None?
      modifies this
      ensures View() == Ended(old(View()), old(outputMemoryBlocks), succeeded)
    {
      ReleaseBatch(succeeded);
      outputMemoryBlocks := [];
      gatherPending := false;
      if !succeeded { h := h.(failed := true); }
      assert h == Ended(old(View()), old(outputMemoryBlocks), succeeded).h;
    }

    method HandleGatherWrite(succeeded: bool)
      requires gatherPending && single.None?
      modifies this
      ensures View() == WriteEnded(old(View()), succeeded)
    {
      hide Gathered, Ended;
      assert InFlight(View()) == outputMemoryBlocks;
      EndBatch(succeeded);
      if succeeded { GatherWrite(); }
    }

    method FlushOutputQueue()
      modifies this`outputQueue, this`h
      ensures View() == Flushed(old(View()))
    {
      ghost var queue, before, n: nat := outputQueue, h, 0;
      while outputQueue != []
        invariant n <= |queue| && outputQueue == queue[n..]
        invariant h == before.(released := before.released + multiset(queue[..n]))
        decreases |outputQueue|
      {
        assert queue[..n + 1] == queue[..n] + [queue[n]];
        h := h.(released := h.released + multiset{outputQueue[0]});
        outputQueue := outputQueue[1..];
        n := n + 1;
      }
      assert queue[..n] == queue;
    }

    method ClearBatch()
      modifies this`outputMemoryBlocks, this`h
      ensures View() == Forgotten(old(View()))
    {
      h := h.(dropped := h.dropped + multiset(outputMemoryBlocks));
      outputMemoryBlocks := [];
    }

    method Reset()
      modifies this
      ensures View() == Closed(old(View()))
    {
      isOpen := false;
      FlushOutputQueue();
      sentMessageCount := 0;
      isWritePended := false;
      ClearBatch();
      disconnectReserved := false;
    }

    method HandleDisconnect()
      modifies this
      ensures View() == Disconnected(old(View()))
    {
      if disconnectReserved { return; }
      if !isOpen { return; }
      Reset();
    }

    /** The timer clears its flag after the callback, so a timer re-armed in the callback counts as
        stopped. It asks for a disconnect only when no accepted block is left to send. */
    method TimedOut(error: bool) returns (disconnects: bool)
      modifies this`disconnectReserved
      ensures View() == old(View()).(disconnectReserved := false)
      ensures disconnects <==> !error && old(disconnectReserved) && !old(isWritePended) && old(outputQueue) == []
      ensures Invariant(old(View())) && isOpen && disconnects ==> h.completed == h.accepted
    {
      disconnects := false;
      if !error && disconnectReserved {
        disconnectReserved := false;
        if isWritePended || outputQueue != [] {
          disconnectReserved := true;
        } else {
          disconnects := true;
        }
      }
      disconnectReserved := false;
    }

    method Step(e: Event)
      requires Invariant(View())
      modifies this
      ensures View() == Next(old(View()), e) && Invariant(View())
    {
      NextKeeps(View(), e);
      FlightAlone(View());
      hide Invariant, WriteEnded, Sent, Disconnected;
      match e
      case Send(block, marshalled) => SendMessage(block, marshalled);
      case WriteDone(succeeded) => if single.Some? { HandleWrite(succeeded); }
      case GatherDone(succeeded) => if gatherPending { HandleGatherWrite(succeeded); }
      case Disconnect => HandleDisconnect();
      case DisconnectGracefully => if !disconnectReserved { disconnectReserved := true; }
      case DisconnectTimeout(error) => var _ := TimedOut(error);
    }
  }

  lemma FlightAlone(s: Session)
    requires Invariant(s)
    ensures s.single.Some? ==> !s.gatherPending && s.outputMemoryBlocks == []
    ensures s.gatherPending ==> s.single.None?
  {
  }

  /** One connection through any run of events. */
  method Serve(maxPendable: nat, events: seq<Event>) returns (session: TcpSession)
    ensures fresh(session) && session.View() == Run(Opened(maxPendable), events) && Invariant(session.View())
  {
    hide Next;
    hide Invariant;
    session := new TcpSession(maxPendable);
    RunKeeps(maxPendable, []);
    for i := 0 to |events|
      invariant fresh(session) && session.View() == Run(Opened(maxPendable), events[..i]) && Invariant(session.View())
    {
      assert events[..i + 1][..i] == events[..i];
      session.Step(events[i]);
    }
    assert events[..|events|] == events;
  }
}
