/**
 * The in-memory slot locks both backends keep while a booking is in flight: a table from
 * `"<order>_<slot>"` to the time the lock was taken, purged lazily of entries older than the
 * timeout whenever a lock is requested.
 *
 * The key is kept as the pair it is built from; the slot part is an ISO timestamp, which
 * contains no '_', so the joined string determines the pair.  Times are integers in the
 * backend's unit: milliseconds with a 60000 timeout on Node, seconds with a 60 timeout in
 * Python.
 */
module Locks {
  import opened Calendar

  datatype LockKey = LockKey(order: string, slot: Instant)

  /** The Node server's `LOCK_TIMEOUT`, in milliseconds. */
  const NodeTimeout: int := 60000

  /** The Python backend's `LOCK_TIMEOUT`, in seconds. */
  const PyTimeout: int := 60

  /** The table after the purge at time `now`: an entry stays while `now - taken <= timeout`. */
  function Purge(m: map<LockKey, int>, now: int, timeout: int): (p: map<LockKey, int>)
    ensures p.Keys <= m.Keys
    ensures forall k :: k in p ==> p[k] == m[k]
  {
    map k | k in m && now - m[k] <= timeout :: m[k]
  }

  /** An entry is purged exactly when it is strictly older than the timeout. */
  lemma PurgeRemovesExactlyExpired(m: map<LockKey, int>, now: int, timeout: int, k: LockKey)
    requires k in m
    ensures k !in Purge(m, now, timeout) <==> now - m[k] > timeout
  {
  }

  /** Purging twice at the same time is purging once. */
  lemma PurgeIdempotent(m: map<LockKey, int>, now: int, timeout: int)
    ensures Purge(Purge(m, now, timeout), now, timeout) == Purge(m, now, timeout)
  {
  }

  /** A later purge removes everything an earlier one did. */
  lemma PurgeMonotone(m: map<LockKey, int>, earlier: int, later: int, timeout: int)
    requires earlier <= later
    ensures Purge(Purge(m, earlier, timeout), later, timeout) == Purge(m, later, timeout)
  {
    var a := Purge(Purge(m, earlier, timeout), later, timeout);
    var b := Purge(m, later, timeout);
    assert forall k :: k in a <==> k in b;
  }

  /** A lock taken at `taken` still blocks the same key at any `now` up to `timeout` later. */
  lemma LockBlocksWithinTimeout(m: map<LockKey, int>, key: LockKey, taken: int, now: int, timeout: int)
    requires key !in Purge(m, taken, timeout) && taken <= now <= taken + timeout
    ensures key in Purge(Purge(m, taken, timeout)[key := taken], now, timeout)
  {
  }

  /** Locking a free key and unlocking it again leaves the purged table. */
  lemma LockThenUnlock(m: map<LockKey, int>, key: LockKey, now: int, timeout: int)
    requires key !in Purge(m, now, timeout)
    ensures Purge(m, now, timeout)[key := now] - {key} == Purge(m, now, timeout)
  {
  }

  class LockTable {
    const timeout: int
    var locks: map<LockKey, int>

    constructor (timeout: int)
      ensures this.timeout == timeout && locks == map[]
    {
      this.timeout := timeout;
      locks := map[];
    }

    /** `cleanupExpiredLocks` / `cleanup_expired_locks`: delete every expired entry. */
    method CleanupExpired(now: int)
      modifies this
      ensures locks == Purge(old(locks), now, timeout)
    {
      var pending := locks.Keys;
      while pending != {}
        invariant pending <= old(locks).Keys
        invariant forall k :: k in locks <==> k in old(locks) && (k in pending || now - old(locks)[k] <= timeout)
        invariant forall k :: k in locks ==> locks[k] == old(locks)[k]
        decreases pending
      {
        var k :| k in pending;
        if now - locks[k] > timeout {
          locks := locks - {k};
        }
        pending := pending - {k};
      }
      assert locks.Keys == Purge(old(locks), now, timeout).Keys;
    }

    /**
     * `lockSlot` / `lock_slot`: purge, then refuse if the key is still held, else record the
     * key with the current time.
     */
    method Lock(key: LockKey, now: int) returns (acquired: bool)
      modifies this
      ensures acquired <==> key !in Purge(old(locks), now, timeout)
      ensures locks == if acquired then Purge(old(locks), now, timeout)[key := now]
                       else Purge(old(locks), now, timeout)
    {
      CleanupExpired(now);
      if key in locks {
        return false;
      }
      locks := locks[key := now];
      return true;
    }

    /** `unlockSlot` / `unlock_slot`: delete the key; nothing happens when it is absent. */
    method Unlock(key: LockKey)
      modifies this
      ensures locks == old(locks) - {key}
    {
      if key in locks {
        locks := locks - {key};
      }
    }
  }
}
