/** The connection pool's critical sections, as the thread inside the mutex runs them. */
module DatabasePool {
  import opened WorkerPool
  import opened WorkerPoolLaws

  class Pool {
    var isIdle: seq<bool>
    var idleDatabase: nat

    ghost predicate Valid()
      reads this
    {
      idleDatabase == Count(isIdle, IsIdle)
    }

    constructor (connectionCount: nat)
      ensures Valid() && isIdle == Start(0, connectionCount).isIdle && idleDatabase == connectionCount
    {
      isIdle := seq(connectionCount, _ => true);
      idleDatabase := connectionCount;
      AllIdle(connectionCount);
    }

    /** `acquire` once its wait is over. The scan finds an item: the count never promises one that is not there. */
    method Acquire() returns (c: nat)
      requires Valid() && idleDatabase > 0
      modifies this
      ensures Valid() && c == FirstIdle(old(isIdle)) && c < |isIdle| == |old(isIdle)|
      ensures isIdle == old(isIdle)[c := false] && idleDatabase == old(idleDatabase) - 1
    {
      FindsIdle(isIdle);
      idleDatabase := idleDatabase - 1;
      for i := 0 to |isIdle|
        invariant isIdle == old(isIdle) && idleDatabase == old(idleDatabase) - 1
        invariant forall j | 0 <= j < i :: !isIdle[j]
      {
        if isIdle[i] {
          isIdle := isIdle[i := false];
          return i;
        }
      }
      assert false;
    }

    /** The search stops at the item released. */
    method Release(db: nat)
      requires Valid() && db < |isIdle| && !isIdle[db]
      modifies this
      ensures Valid() && isIdle == old(isIdle)[db := true] && idleDatabase == old(idleDatabase) + 1
    {
      CountUpdate(isIdle, db, true, IsIdle);
      for i := 0 to |isIdle|
        invariant isIdle == old(isIdle) && idleDatabase == old(idleDatabase) && i <= db
      {
        if i == db {
          isIdle := isIdle[i := true];
          idleDatabase := idleDatabase + 1;
          return;
        }
      }
      assert false;
    }

    /** Exactly the idle items are visited, each once, in order. */
    method EnumerateIdle() returns (visited: seq<nat>)
      ensures forall k, l | 0 <= k < l < |visited| :: visited[k] < visited[l]
      ensures forall c: nat :: c in visited <==> c < |isIdle| && isIdle[c]
    {
      visited := [];
      for i := 0 to |isIdle|
        invariant forall k, l | 0 <= k < l < |visited| :: visited[k] < visited[l]
        invariant forall k | 0 <= k < |visited| :: visited[k] < i
        invariant forall c: nat :: c in visited <==> c < i && isIdle[c]
      {
        if isIdle[i] { visited := visited + [i]; }
      }
    }
  }
}
