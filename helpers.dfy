/**
 * scrooge/contrib/helpers.py: a counting semaphore kept in one Redis sorted
 * set, and the guard that lock_task_semaphore wraps around a task body.
 *
 * The clock reading, the generated uuid and the holder set already stored
 * under the key are parameters; each acquire is one atomic step.
 */
module Helpers {
  import opened Outcomes
  import opened SortedSet
  import opened Semaphore

  class RedisSemaphore {
    /** The Redis key of the holder set: "<queue name>.lock.<lock name>". */
    const key: string
    /** How many holders may hold the semaphore at once. */
    const value: int
    /** Maximum age, in seconds, of a holder. */
    const timeout: int
    /** The sorted set under `key`: holder name to the time it last acquired. */
    var holders: ZSet

    /** The semaphore never holds more names than its capacity. */
    ghost predicate Valid()
      reads this
    {
      WithinCapacity(holders, value)
    }

    constructor (settings: Settings, stored: ZSet)
      ensures key == settings.key && value == settings.value && timeout == settings.timeout
      ensures holders == stored
    {
      key := settings.key;
      value := settings.value;
      timeout := settings.timeout;
      holders := stored;
    }

    /**
     * RedisSemaphore(queue, name, value=1, timeout=None): refuses a queue that
     * is not Redis-backed; otherwise a semaphore over the holders `stored`
     * under its key.
     */
    static method Create(queue: Queue, lockName: string, stored: ZSet,
                         value: int := DefaultValue, timeout: Option<int> := None)
      returns (r: Result<RedisSemaphore>)
      ensures r.Raised? <==> queue.kind != RedisQueue
      ensures r.Raised? ==> r.error == ValueError(RedisOnlyMessage)
      ensures r.Ok? ==> fresh(r.value) && r.value.holders == stored
                        && r.value.key == LockKey(queue.name, lockName)
                        && r.value.value == value
                        && r.value.timeout == EffectiveTimeout(timeout)
    {
      var settings := Configure(queue, lockName, value, timeout);
      match settings
      case Raised(e) =>
        r := Raised(e);
      case Ok(s) =>
        var sem := new RedisSemaphore(s, stored);
        r := Ok(sem);
    }

    /**
     * acquire(name=None) at clock reading `now`; `generated` stands for the
     * uuid used when no name is given. Returns the holder name on success.
     */
    method Acquire(now: int, generated: string, name: Option<string> := None)
      returns (granted: Option<string>)
      modifies this
      ensures Acquisition(granted, holders)
              == AcquireStep(old(holders), value, timeout, now, Requested(name, generated))
      ensures Fresh(old(holders), now) ==>
                (granted.Some? <==> |Live(old(holders), now, timeout).Keys - {Requested(name, generated)}| < value)
      ensures Fresh(old(holders), now) && old(Valid()) ==> Valid()
    {
      var n := Requested(name, generated);
      holders := RemoveRangeByScore(holders, now - timeout);
      holders := holders[n := now];
      var rank := Rank(holders, n);
      if rank < value {
        granted := Some(n);
      } else {
        holders := holders - {n};
        granted := None;
      }
      if Fresh(old(holders), now) {
        AcquireGrantedIff(old(holders), value, timeout, now, n);
        if old(Valid()) {
          AcquirePreservesCapacity(old(holders), value, timeout, now, n);
        }
      }
    }

    /** release(name): 1 if `name` was a holder and is now removed, else 0. */
    method Release(name: string) returns (removed: int)
      modifies this
      ensures removed == ReleaseStep(old(holders), name).removed
      ensures holders == ReleaseStep(old(holders), name).holders
      ensures old(Valid()) ==> Valid()
    {
      removed := if name in holders then 1 else 0;
      holders := holders - {name};
    }
  }

  /** The decorator lock_task_semaphore(queue, lock_name, value=1, timeout=None). */
  class LockedTask {
    const sem: RedisSemaphore
    const lockName: string

    constructor (sem: RedisSemaphore, lockName: string)
      ensures this.sem == sem && this.lockName == lockName
    {
      this.sem := sem;
      this.lockName := lockName;
    }

    /** Builds the semaphore the decorator guards with; raises as the semaphore does. */
    static method LockTaskSemaphore(queue: Queue, lockName: string, stored: ZSet,
                                    value: int := DefaultValue, timeout: Option<int> := None)
      returns (r: Result<LockedTask>)
      ensures r.Raised? <==> queue.kind != RedisQueue
      ensures r.Raised? ==> r.error == ValueError(RedisOnlyMessage)
      ensures r.Ok? ==> fresh(r.value) && fresh(r.value.sem) && r.value.lockName == lockName
                        && r.value.sem.key == LockKey(queue.name, lockName)
                        && r.value.sem.value == value
                        && r.value.sem.timeout == EffectiveTimeout(timeout)
                        && r.value.sem.holders == stored
    {
      var s := RedisSemaphore.Create(queue, lockName, stored, value, timeout);
      match s
      case Raised(e) =>
        r := Raised(e);
      case Ok(sem) =>
        var t := new LockedTask(sem, lockName);
        r := Ok(t);
    }

    /**
     * inner(*args, **kwargs): `body` is what the wrapped function returns or
     * raises when called; `ran` says whether it was called.
     */
    method Inner<T>(now: int, generated: string, body: Result<T>) returns (outcome: Result<T>, ran: bool)
      modifies sem
      ensures Guarded(outcome, ran, sem.holders)
              == GuardStep(old(sem.holders), sem.value, sem.timeout, now, generated, lockName, body)
      ensures !ran ==> outcome == Raised(TaskLockedException(LockedMessagePrefix + lockName))
      ensures ran ==> outcome == body
      ensures sem.holders == Live(old(sem.holders), now, sem.timeout) - {generated}
    {
      var tid := sem.Acquire(now, generated);
      if tid.None? {
        outcome := Raised(TaskLockedException(LockedMessagePrefix + lockName));
        ran := false;
      } else {
        outcome := body;
        ran := true;
        var _ := sem.Release(tid.value);
      }
      GuardLeavesNoTrace(old(sem.holders), sem.value, sem.timeout, now, generated, lockName, body);
    }
  }
}
