/**
 * The semaphore of scrooge/contrib/helpers.py as pure steps over its holder
 * set: configuration, acquire, release and the task guard, with the
 * properties the helpers promise proved about those steps.
 *
 * The holder set is the Redis sorted set stored under the semaphore's key:
 * each holder name is a member whose score is the time it last acquired.
 */
module Semaphore {
  import opened Outcomes
  import opened SortedSet

  /** Capacity used when the caller gives none. */
  const DefaultValue: int := 1
  /** Maximum age, in seconds, of a holder when the caller gives no timeout. */
  const DefaultTimeout: int := 86400

  const LockedMessagePrefix: string := "unable to acquire lock "
  const RedisOnlyMessage: string := "Semaphore is only supported for Redis."

  /** Which storage the queue uses: the semaphore needs a Redis-backed queue. */
  datatype QueueKind = RedisQueue | OtherQueue
  datatype Queue = Queue(name: string, kind: QueueKind)

  /** The settings a semaphore is built from. */
  datatype Settings = Settings(key: string, value: int, timeout: int)

  /** The Redis key of lock `lockName` on queue `queueName`. */
  function LockKey(queueName: string, lockName: string): string
  {
    queueName + ".lock." + lockName
  }

  /** Two locks of one queue never share a key unless they share a name. */
  lemma LockKeyInjective(queueName: string, a: string, b: string)
    requires LockKey(queueName, a) == LockKey(queueName, b)
    ensures a == b
  {
    var n := |queueName + ".lock."|;
    assert a == LockKey(queueName, a)[n..];
    assert b == LockKey(queueName, b)[n..];
  }

  /** `timeout or 86400`: a missing or zero timeout means one day. */
  function EffectiveTimeout(timeout: Option<int>): (t: int)
    ensures t != 0
    ensures timeout.Some? && timeout.value != 0 ==> t == timeout.value
    ensures timeout.None? || timeout.value == 0 ==> t == DefaultTimeout
  {
    match timeout
    case Some(t) => if t != 0 then t else DefaultTimeout
    case None => DefaultTimeout
  }

  /** The semaphore's constructor: checks the queue and derives its settings. */
  function Configure(queue: Queue, lockName: string, value: int := DefaultValue,
                     timeout: Option<int> := None): (r: Result<Settings>)
    ensures r.Raised? <==> queue.kind != RedisQueue
    ensures r.Raised? ==> r.error == ValueError(RedisOnlyMessage)
    ensures r.Ok? ==> r.value.key == LockKey(queue.name, lockName)
                      && r.value.value == value
                      && r.value.timeout == EffectiveTimeout(timeout)
  {
    if queue.kind != RedisQueue then Raised(ValueError(RedisOnlyMessage))
    else Ok(Settings(LockKey(queue.name, lockName), value, EffectiveTimeout(timeout)))
  }

  /** `name or uuid4()`: a missing or empty name is replaced by a generated one. */
  function Requested(name: Option<string>, generated: string): (n: string)
    ensures name.Some? && name.value != "" ==> n == name.value
    ensures name.None? || name.value == "" ==> n == generated
  {
    if name.Some? && name.value != "" then name.value else generated
  }

  /** The holders whose last acquisition is younger than `timeout` at time `now`. */
  function Live(holders: ZSet, now: int, timeout: int): (l: ZSet)
    ensures l.Keys <= holders.Keys
    ensures forall m :: m in l ==> l[m] == holders[m] && l[m] > now - timeout
    ensures forall m :: m in holders && holders[m] > now - timeout ==> m in l
  {
    RemoveRangeByScore(holders, now - timeout)
  }

  /** `now` is later than every stored acquisition time. */
  ghost predicate Fresh(holders: ZSet, now: int)
  {
    forall m :: m in holders ==> holders[m] < now
  }

  /** The holder count a semaphore of capacity `value` may reach. */
  function Capacity(value: int): nat
  {
    if value < 0 then 0 else value
  }

  ghost predicate WithinCapacity(holders: ZSet, value: int)
  {
    |holders| <= Capacity(value)
  }

  /** What one acquire hands back: the granted name, if any, and the new holders. */
  datatype Acquisition = Acquisition(granted: Option<string>, holders: ZSet)

  /**
   * acquire: drop expired holders, add or refresh `name` at `now`, and keep it
   * only when its rank is below `value`.
   */
  function AcquireStep(holders: ZSet, value: int, timeout: int, now: int, name: string): (a: Acquisition)
    ensures a.granted.Some? ==> a.granted.value == name && name in a.holders && a.holders[name] == now
    ensures a.granted.None? ==> name !in a.holders
    ensures a.holders.Keys - {name} == Live(holders, now, timeout).Keys - {name}
    ensures forall m :: m in a.holders && m != name ==> m in holders && a.holders[m] == holders[m] && a.holders[m] > now - timeout
  {
    var added := Live(holders, now, timeout)[name := now];
    if Rank(added, name) < value then Acquisition(Some(name), added)
    else Acquisition(None, added - {name})
  }

  /**
   * With a fresh clock, acquire succeeds exactly when fewer than `value`
   * other live holders exist.
   */
  lemma AcquireGrantedIff(holders: ZSet, value: int, timeout: int, now: int, name: string)
    requires Fresh(holders, now)
    ensures AcquireStep(holders, value, timeout, now, name).granted.Some?
            <==> |Live(holders, now, timeout).Keys - {name}| < value
  {
    var live := Live(holders, now, timeout);
    var added := live[name := now];
    RankOfNewest(added, name);
    assert added.Keys - {name} == live.Keys - {name};
    assert |added| == |added.Keys - {name}| + 1;
  }

  /**
   * Whatever the clock, a free slot is enough: when fewer than `value` other
   * live holders exist, acquire grants the name.
   */
  lemma AcquireGrantedWhenFree(holders: ZSet, value: int, timeout: int, now: int, name: string)
    requires |Live(holders, now, timeout).Keys - {name}| < value
    ensures AcquireStep(holders, value, timeout, now, name).granted == Some(name)
  {
    var live := Live(holders, now, timeout);
    var added := live[name := now];
    assert added.Keys == (live.Keys - {name}) + {name};
    assert |added| == |live.Keys - {name}| + 1;
  }

  /** With a fresh clock, acquire never takes the holder count above the capacity. */
  lemma AcquirePreservesCapacity(holders: ZSet, value: int, timeout: int, now: int, name: string)
    requires Fresh(holders, now)
    requires WithinCapacity(holders, value)
    ensures WithinCapacity(AcquireStep(holders, value, timeout, now, name).holders, value)
  {
    var live := Live(holders, now, timeout);
    var added := live[name := now];
    var a := AcquireStep(holders, value, timeout, now, name);
    if a.granted.Some? {
      RankOfNewest(added, name);
    } else {
      assert a.holders.Keys <= holders.Keys;
      SubsetCard(a.holders.Keys, holders.Keys);
    }
  }

  /**
   * Re-acquiring a live holder's name succeeds, returns that name, and only
   * refreshes its time: no second entry is added.
   */
  lemma ReacquireRefreshes(holders: ZSet, value: int, timeout: int, now: int, name: string)
    requires WithinCapacity(holders, value)
    requires name in Live(holders, now, timeout)
    ensures AcquireStep(holders, value, timeout, now, name)
            == Acquisition(Some(name), Live(holders, now, timeout)[name := now])
    ensures |AcquireStep(holders, value, timeout, now, name).holders| == |Live(holders, now, timeout)|
  {
    var live := Live(holders, now, timeout);
    assert live.Keys <= holders.Keys;
    SubsetCard(live.Keys, holders.Keys);
    assert |live.Keys - {name}| == |live| - 1;
    AcquireGrantedWhenFree(holders, value, timeout, now, name);
    assert live[name := now].Keys == live.Keys;
  }

  /** A holder acquired before `now - timeout` never counts against the capacity. */
  lemma ExpiredNeverCount(holders: ZSet, value: int, timeout: int, now: int, name: string, expired: string)
    requires expired in holders && holders[expired] <= now - timeout
    requires expired != name
    ensures expired !in AcquireStep(holders, value, timeout, now, name).holders
  {
  }

  /** What one release hands back: how many entries it removed, and the new holders. */
  datatype Release = Release(removed: int, holders: ZSet)

  /** release: remove `name`, reporting 1 if it was a holder and 0 otherwise. */
  function ReleaseStep(holders: ZSet, name: string): (r: Release)
    ensures r.removed == 1 <==> name in holders
    ensures r.removed == 0 <==> name !in holders
    ensures name !in r.holders
    ensures r.holders.Keys == holders.Keys - {name}
    ensures forall m :: m in r.holders ==> r.holders[m] == holders[m]
    ensures |r.holders| == |holders| - r.removed
  {
    if name in holders then Release(1, holders - {name}) else Release(0, holders)
  }

  /** A second release of the same name reports 0 and changes nothing. */
  lemma ReleaseTwice(holders: ZSet, name: string)
    ensures var first := ReleaseStep(holders, name);
            ReleaseStep(first.holders, name) == Release(0, first.holders)
  {
  }

  /** Releasing a name that was just added restores the holder set before it. */
  lemma ReleaseUndoesAdd(holders: ZSet, name: string, score: int)
    requires name !in holders
    ensures ReleaseStep(holders[name := score], name) == Release(1, holders)
  {
    SameEntries(ReleaseStep(holders[name := score], name).holders, holders);
  }

  /** Release never takes the holder count above the capacity. */
  lemma ReleasePreservesCapacity(holders: ZSet, value: int, name: string)
    requires WithinCapacity(holders, value)
    ensures WithinCapacity(ReleaseStep(holders, name).holders, value)
  {
  }

  /** A failed acquire leaves the requested name out of the holder set. */
  lemma FailedAcquireLeavesNameAbsent(holders: ZSet, value: int, timeout: int, now: int, name: string)
    requires AcquireStep(holders, value, timeout, now, name).granted.None?
    ensures name !in AcquireStep(holders, value, timeout, now, name).holders
    ensures AcquireStep(holders, value, timeout, now, name).holders == Live(holders, now, timeout) - {name}
  {
  }

  /**
   * Proof helper, not a property: the two outcomes of an acquire as its
   * definition gives them, for callers that need the body unfolded.
   */
  lemma AcquireShape(holders: ZSet, value: int, timeout: int, now: int, name: string)
    ensures var added := Live(holders, now, timeout)[name := now];
            AcquireStep(holders, value, timeout, now, name)
            == if Rank(added, name) < value then Acquisition(Some(name), added)
               else Acquisition(None, added - {name})
  {
  }

  /** What the guarded call produces: its outcome, whether the body ran, and the holders. */
  datatype Guarded<T> = Guarded(outcome: Result<T>, ran: bool, holders: ZSet)

  /**
   * The wrapper `inner` built by lock_task_semaphore: acquire a fresh id; if
   * that fails raise TaskLockedException without running the body; otherwise
   * run the body and release the id whether it returned or raised.
   */
  function GuardStep<T>(holders: ZSet, value: int, timeout: int, now: int, generated: string,
                        lockName: string, body: Result<T>): (g: Guarded<T>)
    ensures g.ran <==> AcquireStep(holders, value, timeout, now, generated).granted.Some?
    ensures !g.ran ==> g.outcome == Raised(TaskLockedException(LockedMessagePrefix + lockName))
    ensures g.ran ==> g.outcome == body
  {
    var a := AcquireStep(holders, value, timeout, now, Requested(None, generated));
    if a.granted.None? then Guarded(Raised(TaskLockedException(LockedMessagePrefix + lockName)), false, a.holders)
    else Guarded(body, true, ReleaseStep(a.holders, a.granted.value).holders)
  }

  /**
   * Whatever happens, the guard leaves no entry for its own id behind: the
   * holder set afterwards is the live holders before it, without that id.
   */
  lemma GuardLeavesNoTrace<T>(holders: ZSet, value: int, timeout: int, now: int, generated: string,
                              lockName: string, body: Result<T>)
    ensures GuardStep(holders, value, timeout, now, generated, lockName, body).holders
            == Live(holders, now, timeout) - {generated}
  {
    var live := Live(holders, now, timeout);
    assert Requested(None, generated) == generated;
    AcquireShape(holders, value, timeout, now, generated);
    AddThenRemove(live, generated, now);
  }

  /**
   * Why the capacity results assume a fresh clock: a newcomer whose time
   * equals an existing holder's, and whose name sorts first, gets rank 0 and
   * is admitted past a full semaphore of capacity 1.
   */
  lemma EqualTimesOverfill()
    ensures var a := AcquireStep(map["b" := 5], 1, DefaultTimeout, 5, "a");
            a.granted == Some("a") && |a.holders| == 2 && !WithinCapacity(a.holders, 1)
  {
    var added := map["b" := 5]["a" := 5];
    assert NameLess("a", "b");
    assert Predecessors(added, "a") == {} by {
      NameLessAsymmetric("a", "b");
    }
    assert AcquireStep(map["b" := 5], 1, DefaultTimeout, 5, "a").holders == added;
    assert added.Keys == {"a", "b"};
    assert |added.Keys| == 2;
  }

  /**
   * A stale clock overfills too, whatever the names: a worker whose `now` is
   * behind a stored score ranks its own name first and is admitted past a
   * full semaphore of capacity 1.
   */
  lemma StaleClockOverfill()
    ensures var a := AcquireStep(map["a" := 9], 1, DefaultTimeout, 5, "b");
            a.granted == Some("b") && |a.holders| == 2 && !WithinCapacity(a.holders, 1)
  {
    var added := map["a" := 9]["b" := 5];
    assert Predecessors(added, "b") == {};
    assert AcquireStep(map["a" := 9], 1, DefaultTimeout, 5, "b").holders == added;
    assert added.Keys == {"a", "b"};
    assert |added.Keys| == 2;
  }

  /**
   * After an overfill, a live holder that re-acquires at a fresh time can be
   * refused: ranked behind the other holder it is removed and loses its slot.
   */
  lemma OverfilledHolderEvicted()
    ensures var a := AcquireStep(map["a" := 9, "b" := 5], 1, DefaultTimeout, 10, "a");
            a.granted == None && a.holders == map["b" := 5]
  {
    var added := map["a" := 9, "b" := 5]["a" := 10];
    assert "b" in Predecessors(added, "a");
    assert Rank(added, "a") >= 1;
    SameEntries(added - {"a"}, map["b" := 5]);
  }

  /** When no holder has expired, pruning keeps the holder set as it is. */
  lemma NothingExpired(holders: ZSet, now: int, timeout: int)
    requires forall m :: m in holders ==> holders[m] > now - timeout
    ensures Live(holders, now, timeout) == holders
  {
    SameEntries(Live(holders, now, timeout), holders);
  }

  /**
   * Whatever the clock, with a free slot acquire grants the name and the
   * holders become the live ones plus the name at the current time.
   */
  lemma AcquireWhenFree(holders: ZSet, value: int, timeout: int, now: int, name: string)
    requires |Live(holders, now, timeout).Keys - {name}| < value
    ensures AcquireStep(holders, value, timeout, now, name)
            == Acquisition(Some(name), Live(holders, now, timeout)[name := now])
  {
    AcquireGrantedWhenFree(holders, value, timeout, now, name);
  }

  /**
   * With a fresh clock and no free slot, acquire refuses and the holders
   * become the live ones without the name.
   */
  lemma AcquireWhenFull(holders: ZSet, value: int, timeout: int, now: int, name: string)
    requires Fresh(holders, now)
    requires |Live(holders, now, timeout).Keys - {name}| >= value
    ensures AcquireStep(holders, value, timeout, now, name)
            == Acquisition(None, Live(holders, now, timeout) - {name})
  {
    AcquireGrantedIff(holders, value, timeout, now, name);
    AcquireShape(holders, value, timeout, now, name);
    AddThenRemove(Live(holders, now, timeout), name, now);
  }

  /**
   * When every holder is younger than `timeout` and `now` is fresh, acquire
   * admits the name exactly when fewer than `value` other holders exist.
   */
  lemma AcquireOnLiveHolders(holders: ZSet, value: int, timeout: int, now: int, name: string)
    requires forall m :: m in holders ==> now - timeout < holders[m] < now
    ensures AcquireStep(holders, value, timeout, now, name)
            == if |holders.Keys - {name}| < value then Acquisition(Some(name), holders[name := now])
               else Acquisition(None, holders - {name})
  {
    NothingExpired(holders, now, timeout);
    if |holders.Keys - {name}| < value {
      AcquireWhenFree(holders, value, timeout, now, name);
    } else {
      AcquireWhenFull(holders, value, timeout, now, name);
    }
  }

  /** An acquire on an empty semaphore of positive capacity succeeds. */
  lemma FirstAdmitted(x: string, t: int)
    ensures AcquireStep(map[], 2, DefaultTimeout, t, x) == Acquisition(Some(x), map[x := t])
  {
    AcquireOnLiveHolders(map[], 2, DefaultTimeout, t, x);
  }

  /** With one holder and capacity 2, a second name is admitted. */
  lemma SecondAdmitted(x: string, y: string, s: int, t: int)
    requires x != y && s < t < s + DefaultTimeout
    ensures AcquireStep(map[x := s], 2, DefaultTimeout, t, y) == Acquisition(Some(y), map[x := s, y := t])
  {
    var one: ZSet := map[x := s];
    assert one.Keys - {y} == {x};
    AcquireOnLiveHolders(one, 2, DefaultTimeout, t, y);
  }

  /** With two holders and capacity 2, a third name is refused and left out. */
  lemma ThirdRefused(x: string, y: string, z: string, s: int, t: int)
    requires x != y && z != x && z != y && s < t && t + 1 < s + DefaultTimeout
    ensures AcquireStep(map[x := s, y := s + 1], 2, DefaultTimeout, t + 1, z)
            == Acquisition(None, map[x := s, y := s + 1])
  {
    var two: ZSet := map[x := s, y := s + 1];
    assert two.Keys - {z} == {x, y};
    SameEntries(two - {z}, two);
    AcquireOnLiveHolders(two, 2, DefaultTimeout, t + 1, z);
  }

  /** With two holders and capacity 2, re-acquiring a held name only refreshes its time. */
  lemma HeldNameRefreshed(x: string, y: string, s: int, t: int)
    requires x != y && s < t && t + 1 < s + DefaultTimeout
    ensures AcquireStep(map[x := s, y := t], 2, DefaultTimeout, t + 1, y)
            == Acquisition(Some(y), map[x := s, y := t + 1])
  {
    var two: ZSet := map[x := s, y := t];
    assert two.Keys - {y} == {x};
    AcquireOnLiveHolders(two, 2, DefaultTimeout, t + 1, y);
    SameEntries(two[y := t + 1], map[x := s, y := t + 1]);
  }

  /**
   * The scenario of the semaphore tests, with capacity 2, any distinct names
   * and a clock that ticks once per acquire from `t`: two acquires succeed
   * and the third fails; a release reports 1 and a repeated release 0; a
   * released name can be re-acquired, re-acquired again while held, and
   * released; after all are released two acquires succeed and the third
   * fails again.
   */
  lemma TwoSlotScenario(a: string, b: string, c: string, d: string, e: string, f: string, t: int)
    requires a != b && c != a && c != b
    requires d != e && f != d && f != e
    ensures var T := DefaultTimeout;
      var a1 := AcquireStep(map[], 2, T, t, a);
      var a2 := AcquireStep(a1.holders, 2, T, t + 1, b);
      var a3 := AcquireStep(a2.holders, 2, T, t + 2, c);
      var r1 := ReleaseStep(a3.holders, b);
      var r2 := ReleaseStep(r1.holders, b);
      var a4 := AcquireStep(r2.holders, 2, T, t + 3, b);
      var a5 := AcquireStep(a4.holders, 2, T, t + 4, b);
      var r3 := ReleaseStep(a5.holders, b);
      var r4 := ReleaseStep(r3.holders, a);
      var a6 := AcquireStep(r4.holders, 2, T, t + 5, d);
      var a7 := AcquireStep(a6.holders, 2, T, t + 6, e);
      var a8 := AcquireStep(a7.holders, 2, T, t + 7, f);
      && a1.granted == Some(a) && a2.granted == Some(b) && a3.granted == None
      && r1.removed == 1 && r2.removed == 0
      && a4.granted == Some(b) && a5.granted == Some(b)
      && r3.removed == 1 && r4.removed == 1
      && a6.granted == Some(d) && a7.granted == Some(e) && a8.granted == None
  {
    FirstAdmitted(a, t);
    SecondAdmitted(a, b, t, t + 1);
    ThirdRefused(a, b, c, t, t + 1);
    ReleaseUndoesAdd(map[a := t], b, t + 1);
    SecondAdmitted(a, b, t, t + 3);
    HeldNameRefreshed(a, b, t, t + 3);
    ReleaseUndoesAdd(map[a := t], b, t + 4);
    ReleaseUndoesAdd(map[], a, t);
    FirstAdmitted(d, t + 5);
    SecondAdmitted(d, e, t + 5, t + 6);
    ThirdRefused(d, e, f, t + 5, t + 6);
  }
}
