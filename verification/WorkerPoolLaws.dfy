/** What every interleaving of the workers keeps, and that none of them can get stuck. */
module WorkerPoolLaws {
  import opened Wrappers
  import opened WorkerPool

  predicate IsIdle(idle: bool) { idle }

  predicate IsWoken(p: Phase) { p.BorrowWoken? }

  // ---- the invariant ----

  /** Requested is processed plus queued. */
  predicate Counted(s: State)
  {
    s.queuedCount == s.processedCount + |s.queue| && s.requestId == s.queuedCount
  }

  /** The queue is what was scheduled and not taken; nothing is taken twice, nor before it was scheduled. */
  ghost predicate Logged(log: seq<Entry>, queue: set<Request>, requestId: nat)
  {
    && (forall r :: r in queue <==> Scheduled(r) in log && Taken(r) !in log)
    && (forall i | 0 <= i < |log| && log[i].Scheduled? :: log[i].request.serial <= requestId)
    && (forall i, j | 0 <= i < j < |log| :: log[i] != log[j])
    && (forall i | 0 <= i < |log| && log[i].Taken? :: Scheduled(log[i].request) in log[..i])
  }

  /** A request is taken only when every one of higher priority scheduled before that was taken earlier. */
  predicate InPriorityOrder(log: seq<Entry>)
  {
    forall i, j | 0 <= j < i < |log| && log[j].Scheduled? && log[i].Taken?
                  && log[i].request.priority < log[j].request.priority ::
      Taken(log[j].request) in log[..i]
  }

  /** Every connection that is not idle is lent to some worker. */
  ghost predicate AllLent(workers: seq<Phase>, isIdle: seq<bool>)
  {
    forall c | 0 <= c < |isIdle| && !isIdle[c] :: exists w | 0 <= w < |workers| :: workers[w].Lent() == Some(c)
  }

  /** What is lent is not idle. */
  predicate LentBusy(workers: seq<Phase>, isIdle: seq<bool>)
  {
    forall w | 0 <= w < |workers| && workers[w].Lent().Some? ::
      workers[w].Lent().value < |isIdle| && !isIdle[workers[w].Lent().value]
  }

  /** Nothing is lent twice. */
  predicate LentOnce(workers: seq<Phase>)
  {
    forall v, w | 0 <= v < w < |workers| && workers[v].Lent().Some? :: workers[v].Lent() != workers[w].Lent()
  }

  /** The idle count is the number of idle items; a connection that is not idle is lent to exactly one worker,
      and one being pinged is idle. */
  ghost predicate Lending(workers: seq<Phase>, isIdle: seq<bool>, idleDatabase: nat, ping: Ping)
  {
    && idleDatabase == Count(isIdle, IsIdle)
    && LentBusy(workers, isIdle) && LentOnce(workers) && AllLent(workers, isIdle)
    && (ping.Running? ==> ping.item < |isIdle| && isIdle[ping.item])
  }

  /** No wake-up is lost. */
  predicate Awake(workers: seq<Phase>, queue: set<Request>, stop: bool, idleDatabase: nat)
  {
    && (forall w | 0 <= w < |workers| && workers[w].FetchAsleep? :: queue == {} && !stop)
    && (NoneAsleep(workers) || idleDatabase <= Count(workers, IsWoken))
  }

  /** After the stop each worker takes at most one more request. */
  predicate Halting(workers: seq<Phase>, stop: bool, lateFetches: seq<nat>)
  {
    && |lateFetches| == |workers|
    && (forall w | 0 <= w < |workers| :: workers[w].Exited? ==> stop)
    && (forall w | 0 <= w < |workers| ::
          lateFetches[w] <= if !stop || workers[w].Fetching? || workers[w].FetchAsleep? then 0 else 1)
  }

  /** Every request taken is in the hands of exactly one worker or done, and not both. */
  ghost predicate Working(workers: seq<Phase>, log: seq<Entry>, done: set<Request>)
  {
    && (forall r :: Taken(r) in log <==> r in done || exists w | 0 <= w < |workers| :: workers[w].Held() == Some(r))
    && (forall w | 0 <= w < |workers| && workers[w].Held().Some? :: workers[w].Held().value !in done)
    && (forall v, w | 0 <= v < w < |workers| && workers[v].Held().Some? :: workers[v].Held() != workers[w].Held())
  }

  ghost predicate Invariant(s: State)
  {
    && Counted(s)
    && Logged(s.log, s.queue, s.requestId)
    && InPriorityOrder(s.log)
    && Lending(s.workers, s.isIdle, s.idleDatabase, s.ping)
    && Awake(s.workers, s.queue, s.stop, s.idleDatabase)
    && Halting(s.workers, s.stop, s.lateFetches)
    && Working(s.workers, s.log, s.done)
  }

  lemma StartHolds(threads: nat, connections: nat)
    ensures Invariant(Start(threads, connections))
  {
    AllIdle(connections);
  }

  lemma {:induction false} AllIdle(n: nat)
    ensures Count(seq(n, _ => true), IsIdle) == n
  {
    if n > 0 {
      assert seq(n, _ => true)[..n - 1] == seq(n - 1, _ => true);
      AllIdle(n - 1);
    }
  }

  // ---- the parts under the changes a step can make ----

  lemma LoggedScheduled(log: seq<Entry>, queue: set<Request>, requestId: nat, r: Request)
    requires Logged(log, queue, requestId) && InPriorityOrder(log) && r.serial == requestId + 1
    ensures r !in queue && Logged(log + [Scheduled(r)], queue + {r}, requestId + 1)
    ensures InPriorityOrder(log + [Scheduled(r)])
  {
    var log' := log + [Scheduled(r)];
    assert Scheduled(r) !in log;
    assert Taken(r) !in log;
    assert forall i | 0 <= i < |log| :: log'[..i] == log[..i];
    assert forall q :: Scheduled(q) in log' <==> Scheduled(q) in log || q == r;
    assert forall q :: Taken(q) in log' <==> Taken(q) in log;
  }

  lemma LoggedTaken(log: seq<Entry>, queue: set<Request>, requestId: nat, top: Request)
    requires Logged(log, queue, requestId) && InPriorityOrder(log) && Top(queue, top)
    ensures Logged(log + [Taken(top)], queue - {top}, requestId)
    ensures InPriorityOrder(log + [Taken(top)])
  {
    var log' := log + [Taken(top)];
    assert forall i | 0 <= i <= |log| :: log'[..i] == log[..i];
    assert forall q :: Taken(q) in log' <==> Taken(q) in log || q == top;
    assert forall q :: Scheduled(q) in log' <==> Scheduled(q) in log;
    forall j | 0 <= j < |log| && log[j].Scheduled? && top.priority < log[j].request.priority
      ensures Taken(log[j].request) in log
    {
      assert log[j].request !in queue;
    }
  }

  /** The workers hold the same requests as before. */
  predicate SameHeld(before: seq<Phase>, after: seq<Phase>)
  {
    |before| == |after| && forall i | 0 <= i < |before| :: before[i].Held() == after[i].Held()
  }

  predicate SameLent(before: seq<Phase>, after: seq<Phase>)
  {
    |before| == |after| && forall i | 0 <= i < |before| :: before[i].Lent() == after[i].Lent()
  }

  lemma WorkingSame(workers: seq<Phase>, after: seq<Phase>, log: seq<Entry>, done: set<Request>)
    requires Working(workers, log, done) && SameHeld(workers, after)
    ensures Working(after, log, done)
  {
    forall r
      ensures (exists w | 0 <= w < |workers| :: workers[w].Held() == Some(r))
         <==> (exists w | 0 <= w < |after| :: after[w].Held() == Some(r))
    {
      if w :| 0 <= w < |workers| && workers[w].Held() == Some(r) { assert after[w].Held() == Some(r); }
      if w :| 0 <= w < |after| && after[w].Held() == Some(r) { assert workers[w].Held() == Some(r); }
    }
  }

  lemma WorkingScheduled(workers: seq<Phase>, log: seq<Entry>, done: set<Request>, r: Request)
    requires Working(workers, log, done)
    ensures Working(workers, log + [Scheduled(r)], done)
  {
    assert forall q :: Taken(q) in log + [Scheduled(r)] <==> Taken(q) in log;
  }

  /** Some worker holds the request. */
  predicate HeldBySome(workers: seq<Phase>, r: Request)
  {
    exists w | 0 <= w < |workers| :: workers[w].Held() == Some(r)
  }

  lemma HeldAfter(workers: seq<Phase>, w: nat, p: Phase, r: Request)
    requires w < |workers|
    requires forall v | 0 <= v < |workers| && v != w && workers[v].Held().Some? ::
      workers[v].Held() != workers[w].Held()
    ensures HeldBySome(workers[w := p], r)
       <==> p.Held() == Some(r) || (HeldBySome(workers, r) && workers[w].Held() != Some(r))
  {
    var after := workers[w := p];
    if p.Held() == Some(r) { assert after[w].Held() == Some(r); }
    if v :| 0 <= v < |workers| && workers[v].Held() == Some(r) && v != w { assert after[v].Held() == Some(r); }
    if v :| 0 <= v < |workers| && after[v].Held() == Some(r) && v != w { assert workers[v].Held() == Some(r); }
  }

  lemma WorkingTaken(workers: seq<Phase>, log: seq<Entry>, done: set<Request>, w: nat, top: Request)
    requires Working(workers, log, done) && w < |workers| && workers[w].Held().None? && Taken(top) !in log
    ensures Working(workers[w := Fetched(top)], log + [Taken(top)], done)
  {
    var after, log' := workers[w := Fetched(top)], log + [Taken(top)];
    forall r
      ensures Taken(r) in log' <==> r in done || HeldBySome(after, r)
    {
      HeldAfter(workers, w, Fetched(top), r);
      assert Taken(r) in log' <==> Taken(r) in log || r == top;
      assert Taken(r) in log <==> r in done || HeldBySome(workers, r);
    }
    assert top !in done && !HeldBySome(workers, top);
    assert forall r :: HeldBySome(after, r) <==> exists w | 0 <= w < |after| :: after[w].Held() == Some(r);
  }

  lemma WorkingDone(workers: seq<Phase>, log: seq<Entry>, done: set<Request>, w: nat)
    requires Working(workers, log, done) && w < |workers| && workers[w].Held().Some?
    ensures Working(workers[w := AtLoop], log, done + {workers[w].Held().value})
  {
    var after, done' := workers[w := AtLoop], done + {workers[w].Held().value};
    forall r
      ensures Taken(r) in log <==> r in done' || HeldBySome(after, r)
    {
      HeldAfter(workers, w, AtLoop, r);
      assert Taken(r) in log <==> r in done || HeldBySome(workers, r);
      if r == workers[w].Held().value { assert HeldBySome(workers, r); }
    }
    assert forall r :: HeldBySome(after, r) <==> exists w | 0 <= w < |after| :: after[w].Held() == Some(r);
  }

  lemma LendingSame(workers: seq<Phase>, after: seq<Phase>, isIdle: seq<bool>, idleDatabase: nat, ping: Ping)
    requires Lending(workers, isIdle, idleDatabase, ping) && SameLent(workers, after)
    ensures Lending(after, isIdle, idleDatabase, ping)
  {
    forall c | 0 <= c < |isIdle| && !isIdle[c]
      ensures exists w | 0 <= w < |after| :: after[w].Lent() == Some(c)
    {
      var w :| 0 <= w < |workers| && workers[w].Lent() == Some(c);
      assert after[w].Lent() == Some(c);
    }
  }

  /** An idle count above zero always finds an idle item. */
  lemma FindsIdle(isIdle: seq<bool>)
    requires Count(isIdle, IsIdle) > 0
    ensures FirstIdle(isIdle) < |isIdle|
    ensures Count(isIdle[FirstIdle(isIdle) := false], IsIdle) == Count(isIdle, IsIdle) - 1
  {
    CountZero(isIdle, IsIdle);
    CountUpdate(isIdle, FirstIdle(isIdle), false, IsIdle);
  }

  lemma AllLentAcquired(workers: seq<Phase>, isIdle: seq<bool>, w: nat, r: Request, c: nat)
    requires AllLent(workers, isIdle) && c < |isIdle| && w < |workers| && workers[w].Lent().None?
    ensures AllLent(workers[w := Calling(r, c)], isIdle[c := false])
  {
    var after, isIdle' := workers[w := Calling(r, c)], isIdle[c := false];
    forall d | 0 <= d < |isIdle'| && !isIdle'[d]
      ensures exists v | 0 <= v < |after| :: after[v].Lent() == Some(d)
    {
      if d == c {
        assert after[w].Lent() == Some(d);
      } else {
        var v :| 0 <= v < |workers| && workers[v].Lent() == Some(d);
        assert after[v].Lent() == Some(d);
      }
    }
  }

  lemma AllLentReleased(workers: seq<Phase>, isIdle: seq<bool>, w: nat, c: nat)
    requires AllLent(workers, isIdle) && c < |isIdle| && w < |workers| && workers[w].Lent() == Some(c)
    ensures AllLent(workers[w := AtLoop], isIdle[c := true])
  {
    var after, isIdle' := workers[w := AtLoop], isIdle[c := true];
    forall d | 0 <= d < |isIdle'| && !isIdle'[d]
      ensures exists v | 0 <= v < |after| :: after[v].Lent() == Some(d)
    {
      var v :| 0 <= v < |workers| && workers[v].Lent() == Some(d);
      assert after[v].Lent() == Some(d);
    }
  }

  lemma LentAcquired(workers: seq<Phase>, isIdle: seq<bool>, w: nat, r: Request, c: nat)
    requires LentBusy(workers, isIdle) && LentOnce(workers)
    requires c < |isIdle| && isIdle[c] && w < |workers| && workers[w].Lent().None?
    ensures LentBusy(workers[w := Calling(r, c)], isIdle[c := false]) && LentOnce(workers[w := Calling(r, c)])
  {
    var after := workers[w := Calling(r, c)];
    assert after[w].Lent() == Some(c);
    assert forall v | 0 <= v < |workers| && v != w :: after[v].Lent() == workers[v].Lent() != Some(c);
  }

  lemma LentReleased(workers: seq<Phase>, isIdle: seq<bool>, w: nat, c: nat)
    requires LentBusy(workers, isIdle) && LentOnce(workers)
    requires c < |isIdle| && w < |workers| && workers[w].Lent() == Some(c)
    ensures LentBusy(workers[w := AtLoop], isIdle[c := true]) && LentOnce(workers[w := AtLoop])
  {
    var after := workers[w := AtLoop];
    assert forall v | 0 <= v < |workers| && v != w :: after[v].Lent() == workers[v].Lent() != Some(c);
  }

  lemma LendingAcquired(workers: seq<Phase>, isIdle: seq<bool>, idleDatabase: nat, w: nat, r: Request)
    requires Lending(workers, isIdle, idleDatabase, Unlocked) && idleDatabase > 0
    requires w < |workers| && workers[w].Lent().None?
    ensures FirstIdle(isIdle) < |isIdle|
    ensures var c := FirstIdle(isIdle);
      Lending(workers[w := Calling(r, c)], isIdle[c := false], idleDatabase - 1, Unlocked)
  {
    hide Count, FirstIdle, AllLent, LentBusy, LentOnce;
    FindsIdle(isIdle);
    var c := FirstIdle(isIdle);
    AllLentAcquired(workers, isIdle, w, r, c);
    LentAcquired(workers, isIdle, w, r, c);
  }

  lemma LendingReleased(workers: seq<Phase>, isIdle: seq<bool>, idleDatabase: nat, w: nat)
    requires Lending(workers, isIdle, idleDatabase, Unlocked) && w < |workers| && workers[w].Calling?
    ensures var c := workers[w].database;
      c < |isIdle| && Lending(workers[w := AtLoop], isIdle[c := true], idleDatabase + 1, Unlocked)
  {
    hide Count, AllLent, LentOnce;
    var c := workers[w].database;
    assert workers[w].Lent() == Some(c);
    CountUpdate(isIdle, c, true, IsIdle);
    AllLentReleased(workers, isIdle, w, c);
    LentReleased(workers, isIdle, w, c);
  }

  // ---- every step keeps the invariant ----

  lemma WakingKeeps(s: State, t: State)
    requires Awake(s.workers, s.queue, s.stop, s.idleDatabase) && Halting(s.workers, s.stop, s.lateFetches)
    requires t.workers == WakeFetchers(s.workers)
    ensures SameHeld(s.workers, t.workers) && SameLent(s.workers, t.workers)
    ensures Awake(t.workers, t.queue, t.stop, s.idleDatabase)
    ensures Halting(t.workers, s.stop, s.lateFetches) && Halting(t.workers, true, s.lateFetches)
  {
    CountSame(s.workers, t.workers, IsWoken);
    hide Count;
  }

  lemma ScheduleCounts(s: State, priority: int)
    requires Counted(s) && Logged(s.log, s.queue, s.requestId) && InPriorityOrder(s.log)
    ensures var t := DoSchedule(s, priority);
      Counted(t) && Logged(t.log, t.queue, t.requestId) && InPriorityOrder(t.log)
  {
    hide Logged, InPriorityOrder, WakeFetchers;
    LoggedScheduled(s.log, s.queue, s.requestId, Request(s.requestId + 1, priority));
  }

  lemma ScheduleKeeps(s: State, priority: int)
    requires Invariant(s)
    ensures Invariant(DoSchedule(s, priority))
  {
    hide Counted, Logged, Lending, Working, InPriorityOrder, Awake, Halting, WakeFetchers, SameHeld, SameLent;
    var t := DoSchedule(s, priority);
    ScheduleCounts(s, priority);
    WakingKeeps(s, t);
    WorkingScheduled(s.workers, s.log, s.done, Request(s.requestId + 1, priority));
    WorkingSame(s.workers, t.workers, t.log, t.done);
    LendingSame(s.workers, t.workers, s.isIdle, s.idleDatabase, s.ping);
  }

  lemma StopKeeps(s: State)
    requires Invariant(s)
    ensures Invariant(Next(s, Stop))
  {
    hide Logged, Lending, Working, InPriorityOrder, Awake, Halting;
    var t := Next(s, Stop);
    WakingKeeps(s, t);
    WorkingSame(s.workers, t.workers, t.log, t.done);
    LendingSame(s.workers, t.workers, s.isIdle, s.idleDatabase, s.ping);
  }

  /** A worker may go to `p` without losing a wake-up. */
  predicate MayMove(s: State, w: nat, p: Phase)
  {
    && w < |s.workers| && |s.lateFetches| == |s.workers|
    && (p.FetchAsleep? ==> s.queue == {} && !s.stop)
    && (p.BorrowAsleep? || s.workers[w].BorrowWoken? ==> s.idleDatabase == 0)
    && (p.Exited? ==> s.stop)
    && (p.Fetching? || p.FetchAsleep? ==> !s.stop || s.lateFetches[w] == 0)
  }

  lemma MoveAwake(s: State, w: nat, p: Phase)
    requires Awake(s.workers, s.queue, s.stop, s.idleDatabase) && Halting(s.workers, s.stop, s.lateFetches)
    requires MayMove(s, w, p)
    ensures Awake(s.workers[w := p], s.queue, s.stop, s.idleDatabase)
    ensures Halting(s.workers[w := p], s.stop, s.lateFetches)
  {
    CountUpdate(s.workers, w, p, IsWoken);
    hide Count;
  }

  /** A step that changes where a worker is, but not what it holds. */
  lemma MoveKeeps(s: State, w: nat, p: Phase)
    requires Invariant(s) && MayMove(s, w, p)
    requires p.Held() == s.workers[w].Held() && p.Lent() == s.workers[w].Lent()
    ensures Invariant(Move(s, w, p))
  {
    hide Logged, Lending, Working, InPriorityOrder, Awake, Halting;
    var t := Move(s, w, p);
    MoveAwake(s, w, p);
    assert SameHeld(s.workers, t.workers) && SameLent(s.workers, t.workers);
    WorkingSame(s.workers, t.workers, t.log, t.done);
    LendingSame(s.workers, t.workers, s.isIdle, s.idleDatabase, s.ping);
  }

  /** Taking a request, borrowing and returning a connection lose no wake-up and count late fetches. */
  lemma TakeAwake(s: State, w: nat, top: Request)
    requires Awake(s.workers, s.queue, s.stop, s.idleDatabase) && Halting(s.workers, s.stop, s.lateFetches)
    requires w < |s.workers| && s.workers[w].Fetching? && Top(s.queue, top)
    ensures var t := DoFetch(s, w, top);
      Awake(t.workers, t.queue, t.stop, t.idleDatabase) && Halting(t.workers, t.stop, t.lateFetches)
  {
    CountUpdate(s.workers, w, Fetched(top), IsWoken);
    hide Count;
  }

  lemma TakeKeeps(s: State, w: nat, top: Request)
    requires Invariant(s) && w < |s.workers| && s.workers[w].Fetching? && Top(s.queue, top)
    ensures Invariant(DoFetch(s, w, top))
  {
    var t := DoFetch(s, w, top);
    assert SameLent(s.workers, t.workers);
    assert s.workers[w].Held().None?;
    hide Lending, InPriorityOrder, Awake, Halting;
    assert Taken(top) !in s.log;
    hide Logged, Working;
    LoggedTaken(s.log, s.queue, s.requestId, top);
    WorkingTaken(s.workers, s.log, s.done, w, top);
    LendingSame(s.workers, t.workers, s.isIdle, s.idleDatabase, s.ping);
    TakeAwake(s, w, top);
  }

  lemma BorrowAwake(s: State, w: nat)
    requires Awake(s.workers, s.queue, s.stop, s.idleDatabase) && Halting(s.workers, s.stop, s.lateFetches)
    requires Enabled(s, Acquire(w)) && s.idleDatabase > 0 && FirstIdle(s.isIdle) < |s.isIdle|
    ensures var t := DoAcquire(s, w);
      Awake(t.workers, t.queue, t.stop, t.idleDatabase) && Halting(t.workers, t.stop, t.lateFetches)
  {
    CountUpdate(s.workers, w, Calling(s.workers[w].request, FirstIdle(s.isIdle)), IsWoken);
    hide Count, FirstIdle;
  }

  lemma BorrowKeeps(s: State, w: nat)
    requires Invariant(s) && Enabled(s, Acquire(w)) && s.idleDatabase > 0
    ensures Invariant(DoAcquire(s, w))
  {
    hide Logged, Lending, Working, InPriorityOrder, Awake, Halting, FirstIdle;
    var t := DoAcquire(s, w);
    LendingAcquired(s.workers, s.isIdle, s.idleDatabase, w, s.workers[w].request);
    assert SameHeld(s.workers, t.workers);
    WorkingSame(s.workers, t.workers, s.log, s.done);
    BorrowAwake(s, w);
  }

  lemma ReleaseHalting(s: State, w: nat, notified: Option<nat>)
    requires Halting(s.workers, s.stop, s.lateFetches) && Enabled(s, Release(w, notified))
    ensures var t := DoRelease(s, w, notified); Halting(t.workers, t.stop, t.lateFetches)
  {
  }

  lemma ReleaseAwake(s: State, w: nat, notified: Option<nat>)
    requires Awake(s.workers, s.queue, s.stop, s.idleDatabase) && Enabled(s, Release(w, notified))
    ensures var t := DoRelease(s, w, notified); Awake(t.workers, t.queue, t.stop, t.idleDatabase)
  {
    hide Count;
    CountUpdate(s.workers, w, AtLoop, IsWoken);
    if notified.Some? {
      CountUpdate(s.workers[w := AtLoop], notified.value, BorrowWoken(s.workers[notified.value].request), IsWoken);
    }
  }

  lemma ReleaseKeeps(s: State, w: nat, notified: Option<nat>)
    requires Invariant(s) && Enabled(s, Release(w, notified))
    ensures Invariant(DoRelease(s, w, notified))
  {
    hide Logged, Lending, Working, InPriorityOrder, Awake, Halting;
    var t, middle := DoRelease(s, w, notified), s.workers[w := AtLoop];
    LendingReleased(s.workers, s.isIdle, s.idleDatabase, w);
    WorkingDone(s.workers, s.log, s.done, w);
    assert SameHeld(middle, t.workers) && SameLent(middle, t.workers);
    WorkingSame(middle, t.workers, t.log, t.done);
    LendingSame(middle, t.workers, t.isIdle, t.idleDatabase, t.ping);
    ReleaseAwake(s, w, notified);
    ReleaseHalting(s, w, notified);
  }

  lemma NextKeeps(s: State, a: Action)
    requires Invariant(s)
    ensures Invariant(Next(s, a))
  {
    hide Logged, Lending, Working, InPriorityOrder;
    if Enabled(s, a) {
      match a
      case Schedule(priority) => ScheduleKeeps(s, priority);
      case Stop => StopKeeps(s);
      case PingStart => PingKeeps(s, a);
      case PingStep => PingKeeps(s, a);
      case SpuriousFetch(w) => MoveKeeps(s, w, Fetching);
      case SpuriousBorrow(w) => MoveKeeps(s, w, BorrowWoken(s.workers[w].request));
      case ReadStop(w) => MoveKeeps(s, w, if s.stop then Exited else Fetching);
      case Fetch(w, top) =>
        if s.queue != {} { TakeKeeps(s, w, top); } else { MoveKeeps(s, w, if s.stop then AtLoop else FetchAsleep); }
      case Acquire(w) =>
        if s.idleDatabase > 0 { BorrowKeeps(s, w); } else { MoveKeeps(s, w, BorrowAsleep(s.workers[w].request)); }
      case Release(w, notified) => ReleaseKeeps(s, w, notified);
    }
  }

  lemma PingKeeps(s: State, a: Action)
    requires Invariant(s) && (a.PingStart? || a.PingStep?)
    ensures Invariant(Next(s, a))
  {
    hide Logged, Working, InPriorityOrder, Awake, Halting;
  }

  /** The invariant holds in every state of every interleaving, for any number of workers and connections. */
  lemma {:induction false} RunKeeps(threads: nat, connections: nat, actions: seq<Action>)
    ensures Invariant(Run(Start(threads, connections), actions))
  {
    hide Invariant, Next;
    if actions == [] {
      StartHolds(threads, connections);
    } else {
      RunKeeps(threads, connections, actions[..|actions| - 1]);
      NextKeeps(Run(Start(threads, connections), actions[..|actions| - 1]), actions[|actions| - 1]);
    }
  }

  // ---- what a run was asked for is what it has ----

  /** The priorities asked for by a run, in order. */
  function Asked(actions: seq<Action>): (r: seq<int>)
  {
    if actions == [] then []
    else
      var last := actions[|actions| - 1];
      Asked(actions[..|actions| - 1]) + if last.Schedule? then [last.priority] else []
  }

  /** The requests that were scheduled, in order. */
  function Requests(log: seq<Entry>): (r: seq<Request>)
  {
    if log == [] then []
    else
      var last := log[|log| - 1];
      Requests(log[..|log| - 1]) + if last.Scheduled? then [last.request] else []
  }

  predicate IsTaken(e: Entry) { e.Taken? }

  /** The requests of a run are numbered in order and have the priorities asked for; the counters count them, and
      those taken. */
  ghost predicate AsAsked(s: State, asked: seq<int>)
  {
    && |Requests(s.log)| == |asked| == s.queuedCount == s.requestId
    && (forall i | 0 <= i < |asked| :: Requests(s.log)[i] == Request(i + 1, asked[i]))
    && s.processedCount == Count(s.log, IsTaken)
  }

  lemma LogNext(log: seq<Entry>, e: Entry)
    ensures Requests(log + [e]) == Requests(log) + if e.Scheduled? then [e.request] else []
    ensures Count(log + [e], IsTaken) == Count(log, IsTaken) + if e.Taken? then 1 else 0
  {
    assert (log + [e])[..|log|] == log;
  }

  lemma NextAsAsked(s: State, a: Action, asked: seq<int>)
    requires AsAsked(s, asked)
    ensures AsAsked(Next(s, a), asked + if a.Schedule? then [a.priority] else [])
  {
    hide Requests, Count, WakeFetchers, FirstIdle, NoneAsleep, Top;
    if Enabled(s, a) {
      match a
      case Schedule(priority) => LogNext(s.log, Scheduled(Request(s.requestId + 1, priority)));
      case Fetch(w, top) => LogNext(s.log, Taken(top));
      case _ =>
    }
  }

  /** Over every run the requests scheduled are those asked for, with their priorities, in order. */
  lemma {:induction false} RunAsAsked(threads: nat, connections: nat, actions: seq<Action>)
    ensures AsAsked(Run(Start(threads, connections), actions), Asked(actions))
  {
    if actions != [] {
      RunAsAsked(threads, connections, actions[..|actions| - 1]);
      NextAsAsked(Run(Start(threads, connections), actions[..|actions| - 1]), actions[|actions| - 1],
                  Asked(actions[..|actions| - 1]));
    }
  }

  /** The pool is told to stop exactly by a stop. */
  lemma {:induction false} StopIffAsked(threads: nat, connections: nat, actions: seq<Action>)
    ensures Run(Start(threads, connections), actions).stop <==> Stop in actions
  {
    if actions != [] {
      var before, last := actions[..|actions| - 1], actions[|actions| - 1];
      StopIffAsked(threads, connections, before);
      assert actions == before + [last];
      StopOnlyByStop(Run(Start(threads, connections), before), last);
    }
  }

  lemma StopOnlyByStop(s: State, a: Action)
    ensures Next(s, a).stop == (s.stop || a == Stop)
  {
    hide WakeFetchers, FirstIdle, NoneAsleep, Top;
  }

  /** How many requests worker `w` takes after a stop, read off the run: steps of `w` that lengthen the log. */
  function LateTaken(s: State, actions: seq<Action>, w: nat): (n: nat)
  {
    if actions == [] then 0
    else
      var before, last := actions[..|actions| - 1], actions[|actions| - 1];
      LateTaken(s, before, w) +
      if Stop in before && last.Fetch? && last.w == w && |Run(s, before).log| < |Run(s, actions).log| then 1 else 0
  }

  lemma {:induction false} LateFetchesCount(threads: nat, connections: nat, actions: seq<Action>, w: nat)
    requires w < threads
    ensures var s := Run(Start(threads, connections), actions);
      |s.lateFetches| == threads && s.lateFetches[w] == LateTaken(Start(threads, connections), actions, w)
  {
    if actions != [] {
      var before, last := actions[..|actions| - 1], actions[|actions| - 1];
      LateFetchesCount(threads, connections, before, w);
      StopIffAsked(threads, connections, before);
      LateNext(Run(Start(threads, connections), before), last, w);
    }
  }

  lemma LateNext(s: State, a: Action, w: nat)
    requires w < |s.lateFetches|
    ensures var t := Next(s, a);
      && |t.lateFetches| == |s.lateFetches|
      && t.lateFetches[w] == s.lateFetches[w] + if s.stop && a.Fetch? && a.w == w && |s.log| < |t.log| then 1 else 0
  {
    hide WakeFetchers, FirstIdle, NoneAsleep, Top;
  }

  /** In no interleaving does a worker take more than one request after the stop. */
  lemma AtMostOneLate(threads: nat, connections: nat, actions: seq<Action>, w: nat)
    requires w < threads
    ensures LateTaken(Start(threads, connections), actions, w) <= 1
  {
    hide LateTaken, Run;
    RunKeeps(threads, connections, actions);
    LateFetchesCount(threads, connections, actions, w);
    RunSizes(Start(threads, connections), actions);
  }

  // ---- pinging ----

  /** The items visited until the pinging thread lets go of the mutex. */
  function PingVisits(s: State): (items: seq<nat>)
    decreases PingLeft(s)
  {
    if s.ping.Unlocked? then []
    else (if s.ping.Running? then [s.ping.item] else []) + PingVisits(Next(s, PingStep))
  }

  /** The idle items from index `i` on. */
  function IdleFrom(isIdle: seq<bool>, i: nat): (items: seq<nat>)
    decreases |isIdle| - i
  {
    if |isIdle| <= i then []
    else if isIdle[i] then [i] + IdleFrom(isIdle, i + 1)
    else IdleFrom(isIdle, i + 1)
  }

  predicate Increasing(items: seq<nat>) { forall k, l | 0 <= k < l < |items| :: items[k] < items[l] }

  lemma IncreasingCons(i: nat, rest: seq<nat>)
    requires Increasing(rest) && forall c | c in rest :: i < c
    ensures Increasing([i] + rest)
  {
    assert forall k | 0 <= k < |rest| :: rest[k] in rest;
  }

  lemma {:induction false} IdleFromIs(isIdle: seq<bool>, i: nat)
    ensures Increasing(IdleFrom(isIdle, i))
    ensures forall c: nat :: c in IdleFrom(isIdle, i) <==> i <= c < |isIdle| && isIdle[c]
    decreases |isIdle| - i
  {
    hide Increasing;
    if i < |isIdle| {
      IdleFromIs(isIdle, i + 1);
      if isIdle[i] { IncreasingCons(i, IdleFrom(isIdle, i + 1)); }
    } else {
      assert Increasing([]) by { IncreasingNone(); }
    }
  }

  lemma IncreasingNone()
    ensures Increasing([])
  {
  }

  lemma PingVisitsOne(s: State)
    ensures s.ping.Unlocked? ==> PingVisits(s) == []
    ensures s.ping.Between? ==> PingVisits(s) == PingVisits(DoPing(s))
    ensures s.ping.Running? ==> PingVisits(s) == [s.ping.item] + PingVisits(DoPing(s))
  {
    assert Next(s, PingStep) == DoPing(s);
    assert s.ping.Between? ==> [] + PingVisits(DoPing(s)) == PingVisits(DoPing(s));
  }

  lemma {:induction false} PingVisitsFrom(s: State)
    ensures PingVisits(s)
         == match s.ping
            case Unlocked => []
            case Between(i) => IdleFrom(s.isIdle, i)
            case Running(i) => [i] + IdleFrom(s.isIdle, i + 1)
    decreases PingLeft(s)
  {
    hide PingVisits, IdleFrom;
    PingVisitsOne(s);
    match s.ping
    case Unlocked =>
    case Between(i) =>
      PingVisitsFrom(DoPing(s));
      IdleFromOne(s.isIdle, i);
    case Running(i) => PingVisitsFrom(DoPing(s));
  }

  lemma IdleFromOne(isIdle: seq<bool>, i: nat)
    ensures IdleFrom(isIdle, i)
         == if |isIdle| <= i then [] else (if isIdle[i] then [i] else []) + IdleFrom(isIdle, i + 1)
  {
    if i < |isIdle| { assert [] + IdleFrom(isIdle, i + 1) == IdleFrom(isIdle, i + 1); }
  }

  /** From the moment it takes the mutex the pinging thread visits exactly the idle items, each once, in order. */
  lemma PingVisitsIdle(s: State)
    requires s.ping.Unlocked?
    ensures var v := PingVisits(Next(s, PingStart));
      && Increasing(v)
      && (forall c: nat :: c in v <==> c < |s.isIdle| && s.isIdle[c])
  {
    PingVisitsFrom(Next(s, PingStart));
    IdleFromIs(s.isIdle, 0);
    hide PingVisits, IdleFrom;
  }

  /** Meanwhile no step of any thread lends or returns a connection. */
  lemma LockedWhilePinging(s: State, a: Action)
    requires !s.ping.Unlocked?
    ensures Next(s, a).isIdle == s.isIdle && Next(s, a).idleDatabase == s.idleDatabase
  {
    hide WakeFetchers, FirstIdle, NoneAsleep, Top;
  }

  // ---- no interleaving gets stuck ----

  /** Some thread can take a step. */
  ghost predicate CanStep(s: State)
  {
    exists a :: Internal(a) && Enabled(s, a)
  }

  predicate AllExited(workers: seq<Phase>) { forall w | 0 <= w < |workers| :: workers[w].Exited? }

  predicate AllAsleep(workers: seq<Phase>) { forall w | 0 <= w < |workers| :: workers[w].FetchAsleep? }

  /** All workers sleep with nothing to do, or all have exited. */
  predicate Quiescent(s: State)
  {
    && s.ping.Unlocked?
    && (s.stop ==> AllExited(s.workers))
    && (!s.stop ==> AllAsleep(s.workers) && (s.workers != [] ==> s.queue == {}))
  }

  lemma {:induction false} TopExists(queue: set<Request>) returns (top: Request)
    requires queue != {}
    ensures Top(queue, top)
    decreases |queue|
  {
    top :| top in queue;
    var rest := queue - {top};
    if rest != {} {
      var other := TopExists(rest);
      assert forall q | q in queue :: q == top || q in rest;
      if top.priority < other.priority { top := other; }
    }
  }

  lemma ReleaseEnabled(s: State, w: nat)
    requires w < |s.workers| && s.workers[w].Calling? && s.ping.Unlocked?
    ensures CanStep(s)
  {
    if NoneAsleep(s.workers) {
      assert Enabled(s, Release(w, None));
    } else {
      var other :| 0 <= other < |s.workers| && s.workers[other].BorrowAsleep?;
      assert Enabled(s, Release(w, Some(other)));
    }
  }

  /** A borrower asleep implies another thread that will run and return or use a connection. */
  lemma SleeperHasHelp(s: State, w: nat)
    requires Invariant(s) && 0 < |s.isIdle| && s.ping.Unlocked?
    requires w < |s.workers| && s.workers[w].BorrowAsleep?
    ensures CanStep(s)
  {
    if s.idleDatabase == 0 {
      CountZero(s.isIdle, IsIdle);
      assert !s.isIdle[0];
      var v :| 0 <= v < |s.workers| && s.workers[v].Lent() == Some(0);
      ReleaseEnabled(s, v);
    } else {
      CountZero(s.workers, IsWoken);
      var v :| 0 <= v < |s.workers| && IsWoken(s.workers[v]);
      assert Enabled(s, Acquire(v));
    }
  }

  lemma WorkerCanStep(s: State, w: nat)
    requires Invariant(s) && 0 < |s.isIdle| && s.ping.Unlocked?
    requires w < |s.workers| && !s.workers[w].Exited? && !s.workers[w].FetchAsleep?
    ensures CanStep(s)
  {
    match s.workers[w]
    case AtLoop => assert Enabled(s, ReadStop(w));
    case Fetching =>
      if s.queue == {} {
        assert Enabled(s, Fetch(w, Request(0, 0)));
      } else {
        var top := TopExists(s.queue);
        assert Enabled(s, Fetch(w, top));
      }
    case Fetched(_) => assert Enabled(s, Acquire(w));
    case BorrowWoken(_) => assert Enabled(s, Acquire(w));
    case BorrowAsleep(_) => SleeperHasHelp(s, w);
    case Calling(_, _) => ReleaseEnabled(s, w);
  }

  lemma PingCanStep(s: State)
    requires !s.ping.Unlocked?
    ensures CanStep(s)
  {
    assert Enabled(s, PingStep);
  }

  lemma IdleIsQuiescent(s: State)
    requires Awake(s.workers, s.queue, s.stop, s.idleDatabase) && Halting(s.workers, s.stop, s.lateFetches)
    requires s.ping.Unlocked?
    requires forall w | 0 <= w < |s.workers| :: s.workers[w].Exited? || s.workers[w].FetchAsleep?
    ensures Quiescent(s)
  {
    hide Count, NoneAsleep;
    if s.stop {
      forall w | 0 <= w < |s.workers| ensures s.workers[w].Exited? {
        assert !s.workers[w].FetchAsleep?;
      }
    } else {
      forall w | 0 <= w < |s.workers| ensures s.workers[w].FetchAsleep? {
        assert !s.workers[w].Exited?;
      }
      if s.workers != [] { assert s.workers[0].FetchAsleep?; }
    }
  }

  lemma CanStepOrQuiescent(s: State)
    requires Invariant(s) && 0 < |s.isIdle|
    ensures CanStep(s) || Quiescent(s)
  {
    hide CanStep, Quiescent, Awake, Halting, Counted, Logged, InPriorityOrder, Lending, Working;
    if !s.ping.Unlocked? {
      PingCanStep(s);
    } else if busy :| 0 <= busy < |s.workers| && !s.workers[busy].Exited? && !s.workers[busy].FetchAsleep? {
      WorkerCanStep(s, busy);
    } else {
      IdleIsQuiescent(s);
    }
  }

  lemma NextSizes(s: State, a: Action)
    ensures |Next(s, a).workers| == |s.workers| && |Next(s, a).isIdle| == |s.isIdle|
  {
    hide WakeFetchers, FirstIdle, NoneAsleep, Top;
  }

  lemma {:induction false} RunSizes(s: State, actions: seq<Action>)
    ensures |Run(s, actions).workers| == |s.workers| && |Run(s, actions).isIdle| == |s.isIdle|
  {
    hide Next;
    if actions != [] {
      RunSizes(s, actions[..|actions| - 1]);
      NextSizes(Run(s, actions[..|actions| - 1]), actions[|actions| - 1]);
    }
  }

  /** With at least one connection no reachable state is deadlocked. */
  lemma NoDeadlock(threads: nat, connections: nat, actions: seq<Action>)
    requires 0 < connections
    ensures CanStep(Run(Start(threads, connections), actions)) || Quiescent(Run(Start(threads, connections), actions))
  {
    RunKeeps(threads, connections, actions);
    RunSizes(Start(threads, connections), actions);
    CanStepOrQuiescent(Run(Start(threads, connections), actions));
  }

  // ---- without new requests the work comes to an end ----

  function Weight(stop: bool, p: Phase): (n: nat)
  {
    match p
    case Exited => 0
    case FetchAsleep => 0
    case Fetching => if stop then 2 else 1
    case AtLoop => if stop then 1 else 2
    case Calling(_, _) => 4
    case BorrowAsleep(_) => 5
    case BorrowWoken(_) => 6
    case Fetched(_) => 7
  }

  function TotalWeight(stop: bool, workers: seq<Phase>): (n: nat)
  {
    if workers == [] then 0 else TotalWeight(stop, workers[..|workers| - 1]) + Weight(stop, workers[|workers| - 1])
  }

  lemma {:induction false} WeightUpdate(stop: bool, workers: seq<Phase>, w: nat, p: Phase)
    requires w < |workers|
    ensures TotalWeight(stop, workers[w := p]) + Weight(stop, workers[w])
         == TotalWeight(stop, workers) + Weight(stop, p)
  {
    var n := |workers| - 1;
    if w < n {
      WeightUpdate(stop, workers[..n], w, p);
      assert workers[w := p][..n] == workers[..n][w := p];
    } else {
      assert workers[w := p][..n] == workers[..n];
    }
  }

  function PingLeft(s: State): (n: nat)
  {
    match s.ping
    case Unlocked => 0
    case Between(i) => if i <= |s.isIdle| then 2 * (|s.isIdle| - i) + 1 else 1
    case Running(i) => if i < |s.isIdle| then 2 * (|s.isIdle| - i) else 2
  }

  /** A bound on the steps the threads can still take by themselves. */
  function StepsLeft(s: State): (n: nat)
  {
    TotalWeight(s.stop, s.workers) + 7 * |s.queue| + PingLeft(s)
  }

  lemma MoveDecreases(s: State, w: nat, p: Phase)
    requires w < |s.workers| && Weight(s.stop, p) < Weight(s.stop, s.workers[w])
    ensures StepsLeft(Move(s, w, p)) < StepsLeft(s)
  {
    WeightUpdate(s.stop, s.workers, w, p);
  }

  lemma TakeDecreases(s: State, w: nat, top: Request)
    requires w < |s.workers| && s.workers[w].Fetching? && Top(s.queue, top)
    ensures StepsLeft(DoFetch(s, w, top)) < StepsLeft(s)
  {
    hide TotalWeight;
    WeightUpdate(s.stop, s.workers, w, Fetched(top));
    assert |s.queue - {top}| == |s.queue| - 1;
  }

  lemma BorrowDecreases(s: State, w: nat)
    requires Enabled(s, Acquire(w)) && s.idleDatabase > 0 && s.idleDatabase == Count(s.isIdle, IsIdle)
    ensures StepsLeft(DoAcquire(s, w)) < StepsLeft(s)
  {
    hide TotalWeight;
    FindsIdle(s.isIdle);
    WeightUpdate(s.stop, s.workers, w, Calling(s.workers[w].request, FirstIdle(s.isIdle)));
  }

  lemma ReleaseDecreases(s: State, w: nat, notified: Option<nat>)
    requires Enabled(s, Release(w, notified))
    ensures StepsLeft(DoRelease(s, w, notified)) < StepsLeft(s)
  {
    hide TotalWeight;
    WeightUpdate(s.stop, s.workers, w, AtLoop);
    if notified.Some? {
      WeightUpdate(s.stop, s.workers[w := AtLoop], notified.value, BorrowWoken(s.workers[notified.value].request));
    }
  }

  lemma StepDecreases(s: State, a: Action)
    requires Invariant(s) && Internal(a) && Enabled(s, a)
    ensures StepsLeft(Next(s, a)) < StepsLeft(s)
    ensures Next(s, a).stop == s.stop && s.log <= Next(s, a).log
  {
    hide TotalWeight, Count, Logged, Working, InPriorityOrder, Awake, Halting;
    match a
    case ReadStop(w) => MoveDecreases(s, w, if s.stop then Exited else Fetching);
    case Fetch(w, top) =>
      if s.queue != {} {
        TakeDecreases(s, w, top);
      } else {
        MoveDecreases(s, w, if s.stop then AtLoop else FetchAsleep);
      }
    case Acquire(w) =>
      if s.idleDatabase > 0 { BorrowDecreases(s, w); } else { MoveDecreases(s, w, BorrowAsleep(s.workers[w].request)); }
    case Release(w, notified) => ReleaseDecreases(s, w, notified);
    case PingStep =>
  }

  /** A run in which the threads take every step and the environment none. */
  predicate OwnSteps(s: State, actions: seq<Action>)
  {
    actions == [] ||
    var before, last := actions[..|actions| - 1], actions[|actions| - 1];
    OwnSteps(s, before) && Internal(last) && Enabled(Run(s, before), last)
  }

  lemma {:induction false} OwnStepsBounded(s: State, actions: seq<Action>)
    requires Invariant(s) && OwnSteps(s, actions)
    ensures var t := Run(s, actions);
      && Invariant(t) && |actions| + StepsLeft(t) <= StepsLeft(s)
      && t.stop == s.stop && s.log <= t.log
  {
    hide Invariant, StepsLeft, Next, Enabled;
    if actions != [] {
      var before, last := actions[..|actions| - 1], actions[|actions| - 1];
      OwnStepsBounded(s, before);
      StepDecreases(Run(s, before), last);
      NextKeeps(Run(s, before), last);
    }
  }

  /** Left alone, the threads stop after a bounded number of steps, however they are scheduled. Then either all
      have exited, if they were told to stop, or every request ever scheduled has been called and returned; and
      all connections are idle. */
  lemma WorkDrains(s: State, actions: seq<Action>)
    requires Invariant(s) && 0 < |s.isIdle| && OwnSteps(s, actions)
    ensures |actions| <= StepsLeft(s)
    ensures !CanStep(Run(s, actions)) ==> Drained(Run(s, actions))
  {
    OwnStepsBounded(s, actions);
    RunSizes(s, actions);
    var t := Run(s, actions);
    if !CanStep(t) {
      CanStepOrQuiescent(t);
      QuiescentIsDrained(t);
    }
  }

  ghost predicate Drained(s: State)
  {
    && (s.stop ==> AllExited(s.workers))
    && (!s.stop && s.workers != [] ==> forall r :: Scheduled(r) in s.log <==> r in s.done)
    && (forall c | 0 <= c < |s.isIdle| :: s.isIdle[c])
  }

  lemma QuiescentIsDrained(s: State)
    requires Invariant(s) && Quiescent(s)
    ensures Drained(s)
  {
    hide Count, InPriorityOrder;
    assert forall w | 0 <= w < |s.workers| :: s.workers[w].Held().None? && s.workers[w].Lent().None?;
    if !s.stop && s.workers != [] {
      assert s.workers[0].FetchAsleep?;
      forall r
        ensures Scheduled(r) in s.log <==> r in s.done
      {
        assert Taken(r) in s.log <==> r in s.done;
        assert r !in s.queue;
        if Taken(r) in s.log {
          var i :| 0 <= i < |s.log| && s.log[i] == Taken(r);
          assert Scheduled(s.log[i].request) in s.log[..i];
        }
      }
    }
  }

  // ---- the connection is needed ----

  /** Without any connection no request is ever called. */
  lemma {:induction false} NothingWithoutConnections(threads: nat, actions: seq<Action>)
    ensures Run(Start(threads, 0), actions).done == {}
  {
    hide Next, Invariant;
    if actions != [] {
      var before, last := actions[..|actions| - 1], actions[|actions| - 1];
      NothingWithoutConnections(threads, before);
      RunKeeps(threads, 0, before);
      RunSizes(Start(threads, 0), before);
      NoneCalled(Run(Start(threads, 0), before), last);
    }
  }

  lemma NoneCalled(s: State, a: Action)
    requires Invariant(s) && s.isIdle == []
    ensures Next(s, a).done == s.done
  {
    hide Count, Logged, Working, InPriorityOrder, Awake, Halting;
    assert forall w | 0 <= w < |s.workers| :: s.workers[w].Lent().None?;
  }

  /** From any state the threads can be run to a rest. */
  lemma {:induction false} RunToRest(s: State, sofar: seq<Action>) returns (actions: seq<Action>)
    requires Invariant(s) && OwnSteps(s, sofar)
    ensures OwnSteps(s, actions) && !CanStep(Run(s, actions))
    decreases StepsLeft(Run(s, sofar))
  {
    OwnStepsBounded(s, sofar);
    actions := sofar;
    if CanStep(Run(s, sofar)) {
      var a :| Internal(a) && Enabled(Run(s, sofar), a);
      hide Next, Invariant, StepsLeft, Enabled;
      assert (sofar + [a])[..|sofar|] == sofar;
      StepDecreases(Run(s, sofar), a);
      actions := RunToRest(s, sofar + [a]);
    }
  }

  lemma {:induction false} RunConcat(s: State, a: seq<Action>, b: seq<Action>)
    ensures Run(s, a + b) == Run(Run(s, a), b)
    decreases |b|
  {
    hide Next;
    if b == [] {
      assert a + b == a;
    } else {
      RunConcat(s, a, b[..|b| - 1]);
      assert (a + b)[..|a + b| - 1] == a + b[..|b| - 1];
    }
  }

  /** Without any connection, any number of workers is deadlocked by one request: they come to rest with work
      left. */
  lemma StuckWithoutConnections(threads: nat) returns (actions: seq<Action>)
    requires 0 < threads
    ensures var s := Run(Start(threads, 0), actions); !CanStep(s) && !Quiescent(s)
  {
    var start, first := Start(threads, 0), [Schedule(0)];
    assert first[..0] == [] && Run(start, []) == start;
    var s := Run(start, first);
    assert s == DoSchedule(start, 0) && s.log == [Scheduled(Request(1, 0))] && !s.stop;
    RunKeeps(threads, 0, first);
    var own := RunToRest(s, []);
    actions := first + own;
    hide Next, CanStep, Quiescent;
    OwnStepsBounded(s, own);
    RunConcat(start, first, own);
    RunSizes(start, actions);
    NothingWithoutConnections(threads, actions);
    var t := Run(start, actions);
    assert Scheduled(Request(1, 0)) in t.log by { assert t.log[0] == s.log[0]; }
    assert |t.workers| == threads;
    if Quiescent(t) {
      QuiescentIsDrained(t);
      assert false;
    }
  }

  /** Some thread can step, or there is nothing to do. */
  ghost predicate NotDeadlocked(s: State) { CanStep(s) || Quiescent(s) }

  /** No reachable state is deadlocked if and only if there is a connection. */
  lemma NoDeadlockIff(threads: nat, connections: nat)
    requires 0 < threads
    ensures 0 < connections <==> forall actions :: NotDeadlocked(Run(Start(threads, connections), actions))
  {
    hide Run, CanStep, Quiescent;
    if 0 < connections {
      forall actions
        ensures NotDeadlocked(Run(Start(threads, connections), actions))
      {
        NoDeadlock(threads, connections, actions);
      }
    } else {
      var actions := StuckWithoutConnections(threads);
      assert !NotDeadlocked(Run(Start(threads, connections), actions));
    }
  }
}
