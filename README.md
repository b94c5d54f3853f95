# Scrooge Redis semaphore, modelled in Dafny

This project models the counting semaphore of the scrooge task queue
(`scrooge/contrib/helpers.py`). It also models the guard that the
`lock_task_semaphore` decorator wraps around a task body.

A `RedisSemaphore` keeps its holders in one Redis sorted set under the key
`"<queue name>.lock.<lock name>"`. Each holder is a name whose score is the
time it last acquired. `acquire` runs four steps:

1. It drops every holder whose score is at or below `now - timeout`.
2. It adds or refreshes the caller's name at `now`.
3. It asks for the name's rank.
4. It keeps the name when the rank is below the capacity `value`. Otherwise it
   removes the name again and returns nothing.

`release` removes a name and reports how many entries it removed (1 or 0).
The guard acquires a freshly generated id. If that fails it raises
`TaskLockedException("unable to acquire lock <name>")` without running the
body. Otherwise it runs the body and releases the id, whether the body
returned or raised.

Files:

- `outcomes.dfy` (module `Outcomes`): `Option`, `Result` and the exceptions
  that can leave the helpers.
- `sorted_set.dfy` (module `SortedSet`): the parts of a Redis sorted set the
  semaphore relies on. It covers member order (score, then name),
  `Rank` (ZRANK) and `RemoveRangeByScore` (ZREMRANGEBYSCORE -inf max).
- `semaphore.dfy` (module `Semaphore`): configuration, acquire, release and
  the guard as pure steps over the holder set, with the semaphore's
  properties proved about them.
- `helpers.dfy` (module `Helpers`): the imperative model. The class
  `RedisSemaphore` has a `holders` map field that `Acquire` and `Release`
  update in place, each proved equal to the pure step. `LockedTask` is the
  decorator, and its `Inner` method is the guarded call.

Refusal and the capacity bound assume a *fresh clock*: each acquire's time is
strictly later than every stored score (`Fresh`). Under that assumption:

- An acquire succeeds exactly when fewer than `value` other live holders
  exist.
- While the holders are within capacity, an acquire keeps the holder count
  at or below `value`.

Admission needs no clock assumption. Whatever the clock, an acquire with a
free slot succeeds. While the holders are within capacity, a live holder that
re-acquires is granted and only has its time refreshed.

Two lemmas show why the bound needs the assumption:

- `EqualTimesOverfill`: a newcomer with the same time as an existing holder,
  whose name sorts first, gets rank 0 and is admitted past a full semaphore.
- `StaleClockOverfill`: a worker whose clock is behind a stored score ranks
  first whatever the names, and is admitted past a full semaphore.

Once the holders are over capacity, re-acquiring does not protect a holder.
`OverfilledHolderEvicted` shows a live holder that re-acquires at a fresh time,
ranks behind the other holder, is refused and is removed.

## Model

| member | source | states |
|---|---|---|
| `Semaphore.LockKeyInjective` | scrooge/contrib/helpers.py:18 | two locks of the same queue share a key only if they have the same name |
| `Semaphore.EffectiveTimeout` | scrooge/contrib/helpers.py:20 | `timeout or 86400`: a missing or zero timeout becomes 86400 seconds, any other value is kept, and the result is never 0 |
| `Semaphore.Configure` | scrooge/contrib/helpers.py:14-20 | a queue that is not Redis-backed gives `ValueError("Semaphore is only supported for Redis.")`, and no other queue does; otherwise the key is the lock key, the capacity is `value` (default 1) and the timeout is the effective timeout |
| `Helpers.RedisSemaphore.Create` | scrooge/contrib/helpers.py:14-23 | the constructor raises `ValueError` exactly for a non-Redis queue; otherwise it gives a fresh semaphore with the configured key, capacity and timeout over the holders already stored under the key |
| `Helpers.RedisSemaphore.constructor` | scrooge/contrib/helpers.py:17-20 | the fields are set from the settings, and the holder set is the one stored under the key |
| `Semaphore.Requested` | scrooge/contrib/helpers.py:26 | `name or uuid4()`: a given non-empty name is used as is; a missing or empty name is replaced by the generated id |
| `SortedSet.RemoveRangeByScore` | scrooge/contrib/helpers.py:29 | removes exactly the members whose score is at or below the bound and keeps the scores of the rest |
| `Semaphore.Live` | scrooge/contrib/helpers.py:27-29 | the pruned holder set is a subset of the holders; it keeps exactly those acquired after `now - timeout`, with their times unchanged |
| `SortedSet.Predecessors` | scrooge/contrib/helpers.py:31 | the members ranked before a member are other members of the set |
| `SortedSet.Rank` | scrooge/contrib/helpers.py:31 | ZRANK of a member is a position below the set's size |
| `SortedSet.RankOrder` | scrooge/contrib/helpers.py:31 | a member that sorts before another (lower score, or equal score and smaller name) has a strictly smaller rank |
| `SortedSet.RanksDistinct` | scrooge/contrib/helpers.py:31 | distinct members have distinct ranks |
| `SortedSet.RankOfNewest` | scrooge/contrib/helpers.py:30-31 | a member whose score is above every other member's has rank size - 1 |
| `Semaphore.AcquireStep` | scrooge/contrib/helpers.py:25-35 | a granted acquire returns the requested name and holds it at `now`; a refused one leaves the name out; apart from that name the holders become the live holders, so every other holder is younger than `timeout` |
| `Helpers.RedisSemaphore.Acquire` | scrooge/contrib/helpers.py:25-35 | prune, insert or refresh, rank and conditional removal, done in place on `holders`; the returned name and new holder set equal `AcquireStep`'s; with a fresh clock it succeeds iff fewer than `value` other live holders exist and it keeps the capacity invariant `Valid` |
| `Semaphore.AcquireGrantedIff` | scrooge/contrib/helpers.py:29-33 | with a fresh clock, acquire succeeds if and only if fewer than `value` live holders other than the name exist |
| `Semaphore.AcquireGrantedWhenFree` | scrooge/contrib/helpers.py:29-33 | for any clock, acquire grants the name when fewer than `value` live holders other than the name exist (the "if" half of `AcquireGrantedIff`, without the fresh-clock condition) |
| `Semaphore.AcquireWhenFree` | scrooge/contrib/helpers.py:29-33 | for any clock, with a free slot acquire grants the name and the holders become the live holders plus the name at `now` |
| `Semaphore.AcquireWhenFull` | scrooge/contrib/helpers.py:29-35 | with a fresh clock and no free slot, acquire returns nothing and the holders become the live holders without the name |
| `Semaphore.AcquireOnLiveHolders` | scrooge/contrib/helpers.py:27-35 | when no holder has expired and the clock is fresh, the outcome depends only on how many other holders there are |
| `Semaphore.NothingExpired` | scrooge/contrib/helpers.py:29 | pruning removes nothing when every holder is younger than the timeout |
| `Semaphore.AcquirePreservesCapacity` | scrooge/contrib/helpers.py:29-34 | with a fresh clock, an acquire never takes the holder count above the capacity |
| `Semaphore.ReacquireRefreshes` | scrooge/contrib/helpers.py:30-33 | for any clock, re-acquiring a live holder's name within capacity succeeds, returns that name, only refreshes its time, and adds no second entry |
| `Semaphore.ExpiredNeverCount` | scrooge/contrib/helpers.py:27-29 | a holder acquired at or before `now - timeout` is gone after the acquire, so it never counts against the capacity |
| `Semaphore.FailedAcquireLeavesNameAbsent` | scrooge/contrib/helpers.py:32-35 | a refused acquire leaves the requested name out of the holder set; the holders are the live ones without it |
| `Semaphore.EqualTimesOverfill` | scrooge/contrib/helpers.py:29-33 | without a fresh clock the capacity can be exceeded: a same-time newcomer with a smaller name enters a full semaphore of capacity 1 |
| `Semaphore.StaleClockOverfill` | scrooge/contrib/helpers.py:29-33 | without a fresh clock the capacity can be exceeded: a newcomer whose clock is behind a stored score ranks first and enters a full semaphore of capacity 1 |
| `Semaphore.OverfilledHolderEvicted` | scrooge/contrib/helpers.py:30-34 | in an overfilled semaphore of capacity 1, a live holder that re-acquires at a fresh time ranks behind the other holder, is refused, and is removed, leaving only the other holder |
| `Semaphore.ReleaseStep` | scrooge/contrib/helpers.py:37-38 | release reports 1 iff the name was held and 0 iff not; afterwards the name is absent, every other holder keeps its time, and the count drops by the number reported |
| `Helpers.RedisSemaphore.Release` | scrooge/contrib/helpers.py:37-38 | removes the name in place, returns 1 if it was held and 0 otherwise, and keeps the capacity invariant; its result and new holder set equal `ReleaseStep`'s |
| `Semaphore.ReleaseTwice` | scrooge/tests/test_helpers.py:27-28 | a second release of the same name reports 0 and changes nothing |
| `Semaphore.ReleaseUndoesAdd` | scrooge/contrib/helpers.py:30-38 | releasing a name that was just added reports 1 and restores the previous holder set |
| `Semaphore.ReleasePreservesCapacity` | scrooge/contrib/helpers.py:37-38 | a release never takes the holder count above the capacity |
| `Semaphore.GuardStep` | scrooge/contrib/helpers.py:59-68 | the body runs iff acquiring a fresh id succeeds; when it does not, the outcome is `TaskLockedException("unable to acquire lock <name>")`; when it does, the body's return value or exception passes through unchanged |
| `Semaphore.GuardLeavesNoTrace` | scrooge/contrib/helpers.py:62-68 | on every path (locked, normal return, exception) the guard leaves no entry for its id: the holders afterwards are the live holders before it, without that id |
| `Helpers.LockedTask.LockTaskSemaphore` | scrooge/contrib/helpers.py:41-72 | the decorator builds its semaphore from the queue, lock name, capacity and timeout, and raises `ValueError("Semaphore is only supported for Redis.")` exactly when the queue is not Redis-backed |
| `Helpers.LockedTask.Inner` | scrooge/contrib/helpers.py:61-68 | acquire, then run the body, then release in a `finally`, done on the semaphore in place; it matches `GuardStep`, and the semaphore ends with the live holders minus the guard's id |
| `Semaphore.FirstAdmitted` | scrooge/tests/test_helpers.py:22-23 | the first acquire on an empty semaphore of capacity 2 succeeds |
| `Semaphore.SecondAdmitted` | scrooge/tests/test_helpers.py:24-25 | with one holder and capacity 2, a second name is admitted |
| `Semaphore.ThirdRefused` | scrooge/tests/test_helpers.py:26 | with two holders and capacity 2, a third name is refused and the holders are unchanged |
| `Semaphore.HeldNameRefreshed` | scrooge/tests/test_helpers.py:29-30 | re-acquiring a held name returns that name and only refreshes its time |
| `Semaphore.TwoSlotScenario` | scrooge/tests/test_helpers.py:20-37 | the whole test sequence holds for any distinct names and a clock that ticks once per acquire: admitted, admitted, refused; release 1 then 0; re-acquire twice; release 1 and 1; admitted, admitted, refused |

## Left out

- Redis transport: `acquire` is one atomic step. The MULTI pipeline and the separate, non-transactional `zrem` after a refusal can interleave with other clients; that is not modelled.
- Concurrent acquirers in several workers are not modelled; only sequential calls on one holder set are. Two `RedisSemaphore` objects sharing a key (aliasing through Redis) are not modelled either.
- `time.time()` returns a float. The model takes an integer clock reading `now` as a parameter.
- `uuid.uuid4()` is the parameter `generated`. Its uniqueness is not modelled; `GuardLeavesNoTrace` holds for any id.
- The connection object (`_conn`) and the registration of the key in the queue's `_locks` set (scrooge/contrib/helpers.py:22-23) are not modelled. The queue class they belong to is not part of this model.
- Python's dynamic typing of `value` and `timeout` is not modelled: both are integers here. The lock name is a string.
- The wrapped task body is given by its outcome (a returned value or a raised exception). Its arguments, side effects and `functools.wraps` metadata are not modelled. A body that itself uses the same semaphore is not modelled.
- Member names are compared by character code. This matches Redis's byte order on the UTF-8 encoding of the names.
- Helpers.RedisSemaphore.Acquire: the refusal and capacity statements hold only when the clock is fresh (every stored score is earlier than `now`). The source makes no such check. `EqualTimesOverfill` (equal times) and `StaleClockOverfill` (a clock behind a stored score) show the capacity failing without it.
- Redis errors are not modelled: every command succeeds. A connection error raised by `sem.release(tid)` in the `finally` of `inner` (scrooge/contrib/helpers.py:67-68) would replace the body's return value or exception; `GuardStep` passes the body's outcome through only because release cannot fail here.
- The task-queue engine, the storage backends, the consumer, the Django integration and the command-line entry points are not part of this model. That includes the queue's own `lock_task` and how the queue handles `TaskLockedException`.
