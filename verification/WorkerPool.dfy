/** The database proxy: worker threads take requests from a priority queue and borrow connections from a
    pool, each with its own mutex and condition variable. A state holds where every worker is; an action is
    one atomic step of one thread, and a run is any interleaving of actions. */
module WorkerPool {
  import opened Wrappers

  /** A request by its number in the order of scheduling. */
  datatype Request = Request(serial: nat, priority: int)

  datatype Phase =
    | AtLoop                                    // about to read `stop`
    | Fetching                                  // about to take the queue's mutex, first or after a wake-up
    | FetchAsleep                               // waiting for a request
    | Fetched(request: Request)                 // about to take the pool's mutex
    | BorrowAsleep(request: Request)            // waiting for a connection
    | BorrowWoken(request: Request)             // notified, not yet run
    | Calling(request: Request, database: nat)  // using a connection
    | Exited
  {
    /** The request in the worker's hands. */
    function Held(): (r: Option<Request>) {
      if Fetched? || BorrowAsleep? || BorrowWoken? || Calling? then Some(request) else None
    }

    /** The connection lent to the worker. */
    function Lent(): (c: Option<nat>) { if Calling? then Some(database) else None }
  }

  /** The thread that pings idle connections under the pool's mutex. */
  datatype Ping = Unlocked | Between(next: nat) | Running(item: nat)

  datatype Entry = Scheduled(request: Request) | Taken(request: Request)

  datatype State = State(
    workers: seq<Phase>,
    // the scheduler
    queue: set<Request>,
    requestId: nat,
    stop: bool,
    queuedCount: nat,
    processedCount: nat,
    // the connection pool
    isIdle: seq<bool>,
    idleDatabase: nat,
    ping: Ping,
    // history
    log: seq<Entry>,         // requests scheduled and taken, in order
    done: set<Request>,      // requests whose call has returned
    lateFetches: seq<nat>)   // for each worker, requests taken after the stop

  datatype Action =
    // the environment
    | Schedule(priority: int)
    | Stop
    | PingStart
    | SpuriousFetch(w: nat)
    | SpuriousBorrow(w: nat)
    // steps of the threads
    | ReadStop(w: nat)
    | Fetch(w: nat, top: Request)
    | Acquire(w: nat)
    | Release(w: nat, notified: Option<nat>)
    | PingStep

  predicate Internal(a: Action) { a.ReadStop? || a.Fetch? || a.Acquire? || a.Release? || a.PingStep? }

  function Start(threads: nat, connections: nat): (s: State)
  {
    State(seq(threads, _ => AtLoop), {}, 0, false, 0, 0, seq(connections, _ => true), connections, Unlocked,
      [], {}, seq(threads, _ => 0))
  }

  /** No queued request has a higher priority. */
  predicate Top(queue: set<Request>, r: Request)
  {
    r in queue && forall q | q in queue :: q.priority <= r.priority
  }

  predicate NoneAsleep(workers: seq<Phase>) { forall i | 0 <= i < |workers| :: !workers[i].BorrowAsleep? }

  predicate Enabled(s: State, a: Action)
  {
    match a
    case Schedule(_) => true
    case Stop => true
    case PingStart => s.ping.Unlocked?
    case SpuriousFetch(w) => w < |s.workers| && s.workers[w].FetchAsleep?
    case SpuriousBorrow(w) => w < |s.workers| && s.workers[w].BorrowAsleep?
    case ReadStop(w) => w < |s.workers| && s.workers[w].AtLoop?
    case Fetch(w, top) => w < |s.workers| && s.workers[w].Fetching? && (s.queue == {} || Top(s.queue, top))
    case Acquire(w) =>
      w < |s.workers| && (s.workers[w].Fetched? || s.workers[w].BorrowWoken?) && s.ping.Unlocked?
    case Release(w, notified) =>
      w < |s.workers| && s.workers[w].Calling? && s.ping.Unlocked? &&
      (match notified
       case None => NoneAsleep(s.workers)
       case Some(other) => other < |s.workers| && s.workers[other].BorrowAsleep?)
    case PingStep => !s.ping.Unlocked?
  }

  function WakeFetchers(workers: seq<Phase>): (r: seq<Phase>)
    ensures |r| == |workers|
    ensures forall i | 0 <= i < |r| :: r[i] == if workers[i].FetchAsleep? then Fetching else workers[i]
  {
    seq(|workers|, i requires 0 <= i < |workers| => if workers[i].FetchAsleep? then Fetching else workers[i])
  }

  function Move(s: State, w: nat, p: Phase): (r: State)
    requires w < |s.workers|
  {
    s.(workers := s.workers[w := p])
  }

  /** The index of the first idle item, or the number of items if there is none. */
  function FirstIdle(isIdle: seq<bool>): (c: nat)
    ensures c <= |isIdle| && (c < |isIdle| ==> isIdle[c]) && forall i | 0 <= i < c :: !isIdle[i]
  {
    if isIdle == [] || isIdle[0] then 0 else 1 + FirstIdle(isIdle[1..])
  }

  /** `schedule`: a new request is queued and all waiting fetchers are notified. */
  function DoSchedule(s: State, priority: int): (t: State)
  {
    var r := Request(s.requestId + 1, priority);
    s.(workers := WakeFetchers(s.workers), queue := s.queue + {r}, requestId := s.requestId + 1,
       queuedCount := s.queuedCount + 1, log := s.log + [Scheduled(r)])
  }

  /** One pass of the critical section of `fetchRequest`. */
  function DoFetch(s: State, w: nat, top: Request): (t: State)
    requires w < |s.workers|
  {
    if s.queue == {} then Move(s, w, if s.stop then AtLoop else FetchAsleep)
    else
      Move(s, w, Fetched(top)).(queue := s.queue - {top}, processedCount := s.processedCount + 1,
        log := s.log + [Taken(top)],
        lateFetches :=
          if s.stop && w < |s.lateFetches| then s.lateFetches[w := s.lateFetches[w] + 1] else s.lateFetches)
  }

  /** One pass of the critical section of `acquire`. */
  function DoAcquire(s: State, w: nat): (t: State)
    requires w < |s.workers| && (s.workers[w].Fetched? || s.workers[w].BorrowWoken?)
  {
    var r, c := s.workers[w].request, FirstIdle(s.isIdle);
    if s.idleDatabase == 0 then Move(s, w, BorrowAsleep(r))
    else if c == |s.isIdle| then s.(idleDatabase := s.idleDatabase - 1)  // the assertion in the code fails
    else Move(s, w, Calling(r, c)).(isIdle := s.isIdle[c := false], idleDatabase := s.idleDatabase - 1)
  }

  /** The call returns and its connection goes back; one waiting borrower is notified, if there is any. */
  function DoRelease(s: State, w: nat, notified: Option<nat>): (t: State)
    requires w < |s.workers| && s.workers[w].Calling?
    requires notified.Some? ==> notified.value < |s.workers| && s.workers[notified.value].BorrowAsleep?
  {
    var c := s.workers[w].database;
    var t := Move(s, w, AtLoop).(done := s.done + {s.workers[w].request}, idleDatabase := s.idleDatabase + 1,
               isIdle := if c < |s.isIdle| then s.isIdle[c := true] else s.isIdle);
    match notified
    case None => t
    case Some(other) => Move(t, other, BorrowWoken(s.workers[other].request))
  }

  function DoPing(s: State): (t: State)
  {
    match s.ping
    case Unlocked => s
    case Between(i) =>
      s.(ping := if |s.isIdle| <= i then Unlocked else if s.isIdle[i] then Running(i) else Between(i + 1))
    case Running(i) => s.(ping := Between(i + 1))
  }

  /** One step of a run. An action that is not enabled does not happen. */
  function Next(s: State, a: Action): (t: State)
  {
    if !Enabled(s, a) then s
    else
      match a
      case Schedule(priority) => DoSchedule(s, priority)
      case Stop => s.(stop := true, workers := WakeFetchers(s.workers))
      case PingStart => s.(ping := Between(0))
      case SpuriousFetch(w) => Move(s, w, Fetching)
      case SpuriousBorrow(w) => Move(s, w, BorrowWoken(s.workers[w].request))
      case ReadStop(w) => Move(s, w, if s.stop then Exited else Fetching)
      case Fetch(w, top) => DoFetch(s, w, top)
      case Acquire(w) => DoAcquire(s, w)
      case Release(w, notified) => DoRelease(s, w, notified)
      case PingStep => DoPing(s)
  }

  function Run(s: State, actions: seq<Action>): (t: State)
  {
    if actions == [] then s else Next(Run(s, actions[..|actions| - 1]), actions[|actions| - 1])
  }

  // ---- counting ----

  function Count<T>(s: seq<T>, p: T -> bool): (n: nat)
  {
    if s == [] then 0 else Count(s[..|s| - 1], p) + if p(s[|s| - 1]) then 1 else 0
  }

  lemma {:induction false} CountUpdate<T>(s: seq<T>, i: nat, x: T, p: T -> bool)
    requires i < |s|
    ensures Count(s[i := x], p) + (if p(s[i]) then 1 else 0) == Count(s, p) + if p(x) then 1 else 0
  {
    var n := |s| - 1;
    if i < n {
      CountUpdate(s[..n], i, x, p);
      assert s[i := x][..n] == s[..n][i := x];
    } else {
      assert s[i := x][..n] == s[..n];
    }
  }

  lemma {:induction false} CountZero<T>(s: seq<T>, p: T -> bool)
    ensures Count(s, p) == 0 <==> forall i | 0 <= i < |s| :: !p(s[i])
  {
    if s != [] {
      CountZero(s[..|s| - 1], p);
      assert forall i | 0 <= i < |s| - 1 :: s[..|s| - 1][i] == s[i];
    }
  }

  lemma {:induction false} CountSame<T>(s: seq<T>, t: seq<T>, p: T -> bool)
    requires |s| == |t| && forall i | 0 <= i < |s| :: p(s[i]) == p(t[i])
    ensures Count(s, p) == Count(t, p)
  {
    if s != [] { CountSame(s[..|s| - 1], t[..|t| - 1], p); }
  }
}
