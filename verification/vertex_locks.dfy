/**
  The per-vertex lock pool of dag.go (`lockVertex`, `unlockVertex`), reduced
  to its bookkeeping: for each vertex, a reference-counted mutex that is
  either locked or not. A single caller is modelled, so locking a mutex that
  is already held blocks instead of waiting for another goroutine.

  As written, `lockVertex` copies the pool's mutex into a local variable and
  locks the copy, so the mutex `unlockVertex` later releases is still
  unlocked, which Go treats as a fatal error. `LockVertexAsWritten` and
  `UnlockAfterCopyIsFatal` show this; `LockVertex` locks the pool's own mutex,
  and `LockUnlockRoundTrip` proves that a lock followed by an unlock leaves
  the pool as it was.
*/
module VertexLocks {
  import opened Wrappers
  import opened Graph

  /** A vertex's mutex and the number of callers interested in it. */
  datatype CMutex = CMutex(locked: bool, count: int)

  type Pool = map<Vertex, CMutex>

  /** The outcome of `lockVertex`: the pool and the mutex the caller holds, or a wait that never ends. */
  datatype Acquire = Acquired(pool: Pool, held: CMutex) | Blocked

  const UnlockOfUnlocked: string := "sync: unlock of unlocked mutex"
  const NilEntry: string := "invalid memory address or nil pointer dereference"

  /** Every entry is still wanted by someone, as `unlockVertex` removes entries whose count drops to zero. */
  predicate Counted(pool: Pool) {
    forall k :: k in pool ==> pool[k].count >= 1
  }

  /** No mutex of the pool is locked. */
  predicate AllUnlocked(pool: Pool) {
    forall k :: k in pool ==> !pool[k].locked
  }

  /** The entry for `v`, created unlocked with no interest when missing. */
  function EntryFor(pool: Pool, v: Vertex): (m: CMutex)
    ensures v in pool ==> m == pool[v]
    ensures v !in pool ==> !m.locked && m.count == 0
  {
    if v in pool then pool[v] else CMutex(false, 0)
  }

  /**
    lockVertex as written: record the interest, copy the mutex out of the
    pool, and lock the copy. The pool's own mutex keeps its state.
  */
  function LockVertexAsWritten(pool: Pool, v: Vertex): (r: Acquire)
    ensures r.Acquired? <==> !EntryFor(pool, v).locked
    ensures r.Acquired? ==>
      && r.pool.Keys == pool.Keys + {v}
      && r.pool[v] == EntryFor(pool, v).(count := EntryFor(pool, v).count + 1)
      && r.held.locked
      && (forall k :: k in pool && k != v ==> r.pool[k] == pool[k])
  {
    var entry := EntryFor(pool, v);
    var pool' := pool[v := entry.(count := entry.count + 1)];
    var copy := pool'[v];
    if copy.locked then Blocked else Acquired(pool', copy.(locked := true))
  }

  /** lockVertex as intended: record the interest and lock the pool's own mutex. */
  function LockVertex(pool: Pool, v: Vertex): (r: Acquire)
    ensures r.Acquired? <==> !EntryFor(pool, v).locked
    ensures r.Acquired? ==>
      && r.pool.Keys == pool.Keys + {v}
      && r.pool[v].locked && r.pool[v].count == EntryFor(pool, v).count + 1
      && r.held == r.pool[v]
      && (forall k :: k in pool && k != v ==> r.pool[k] == pool[k])
  {
    var entry := EntryFor(pool, v);
    if entry.locked then Blocked
    else
      var held := CMutex(true, entry.count + 1);
      Acquired(pool[v := held], held)
  }

  /**
    unlockVertex: release the pool's mutex for `v` (a missing entry is a nil
    dereference, an unlocked mutex a fatal error), drop the interest, and
    remove the entry once nobody is interested.
  */
  function UnlockVertex(pool: Pool, v: Vertex): (r: Result<Pool, string>)
    ensures v !in pool ==> r == Failure(NilEntry)
    ensures v in pool && !pool[v].locked ==> r == Failure(UnlockOfUnlocked)
    ensures v in pool && pool[v].locked ==>
      && r.Success?
      && (pool[v].count == 1 <==> v !in r.value)
      && (v in r.value ==> !r.value[v].locked && r.value[v].count == pool[v].count - 1)
      && (forall k :: k != v ==> (k in r.value <==> k in pool))
      && (forall k :: k in pool && k != v ==> r.value[k] == pool[k])
  {
    if v !in pool then Failure(NilEntry)
    else if !pool[v].locked then Failure(UnlockOfUnlocked)
    else
      var count := pool[v].count - 1;
      if count == 0 then Success(pool - {v})
      else Success(pool[v := CMutex(false, count)])
  }

  /**
    As written, locking only ever locks copies: a pool without locked
    mutexes stays without them, so the unlock that follows a lock always
    fails, on the first call and on every later one.
  */
  lemma UnlockAfterCopyIsFatal(pool: Pool, v: Vertex)
    requires AllUnlocked(pool)
    ensures LockVertexAsWritten(pool, v).Acquired?
    ensures AllUnlocked(LockVertexAsWritten(pool, v).pool)
    ensures UnlockVertex(LockVertexAsWritten(pool, v).pool, v) == Failure(UnlockOfUnlocked)
  {
  }

  /** The first `GetDescendants` on a new DAG already fails: the empty pool is the counterexample. */
  lemma FirstDescendantQueryIsFatal(v: Vertex)
    ensures UnlockVertex(LockVertexAsWritten(map[], v).pool, v) == Failure(UnlockOfUnlocked)
  {
    UnlockAfterCopyIsFatal(map[], v);
  }

  /**
    As intended, a lock of a free vertex followed by its unlock succeeds and
    leaves the pool exactly as it was: the entry is back to its old count, or
    gone when it was created by the lock.
  */
  lemma LockUnlockRoundTrip(pool: Pool, v: Vertex)
    requires Counted(pool) && !EntryFor(pool, v).locked
    ensures LockVertex(pool, v).Acquired?
    ensures UnlockVertex(LockVertex(pool, v).pool, v) == Success(pool)
  {
    var locked := LockVertex(pool, v).pool;
    var r := UnlockVertex(locked, v);
    if v in pool {
      assert r.value == pool[v := CMutex(false, pool[v].count)];
      assert pool[v] == CMutex(false, pool[v].count);
    } else {
      assert r.value == locked - {v};
    }
    assert r.value == pool;
  }
}
