/** Theorems about every run of the rate limiter. */
module RateLimitRuns {
  import opened Maps
  import opened RateLimitSpec

  ghost predicate Ascending(log: seq<int>) {
    forall i, j :: 0 <= i < j < |log| ==> log[i] <= log[j]
  }

  // ---- counting in a log ----

  lemma {:induction false} RecentAtMost(log: seq<int>, cut: nat, now: int, d: int)
    requires cut <= |log|
    requires forall i :: 0 <= i < cut ==> now - log[i] >= d
    ensures Recent(log, now, d) <= |log| - cut
  {
    if log != [] {
      RecentAtMost(log[..|log| - 1], if cut == |log| then cut - 1 else cut, now, d);
    }
  }

  lemma {:induction false} RecentAtLeast(log: seq<int>, cut: nat, now: int, d: int)
    requires cut <= |log|
    requires forall i :: cut <= i < |log| ==> now - log[i] < d
    ensures Recent(log, now, d) >= |log| - cut
  {
    if cut < |log| {
      assert now - log[|log| - 1] < d;
      RecentAtLeast(log[..|log| - 1], cut, now, d);
    }
  }

  /** In an ascending log, fewer than n entries are recent iff the n-th last one is not. */
  lemma RecentFewerThan(log: seq<int>, now: int, d: int, n: nat)
    requires Ascending(log) && 1 <= n <= |log|
    ensures Recent(log, now, d) < n <==> now - log[|log| - n] >= d
  {
    var cut := |log| - n;
    if now - log[cut] >= d {
      RecentAtMost(log, cut + 1, now, d);
    } else {
      RecentAtLeast(log, cut, now, d);
    }
  }

  // ---- the link between a bounded queue and the full log ----

  function Queue(s: Store, key: string): seq<int> {
    if key in s then s[key] else []
  }

  /** The queue is the end of the log, never over quota, and short only if all it lacks is out of the window. */
  ghost predicate Linked(queue: seq<int>, log: seq<int>, now: int, limit: Limit) {
    && |queue| <= Quota(limit)
    && |queue| <= |log|
    && queue == log[|log| - |queue|..]
    && Ascending(log)
    && (log != [] ==> log[|log| - 1] <= now)
    && (|queue| < Quota(limit) ==> forall i :: 0 <= i < |log| - |queue| ==> now - log[i] >= limit.duration)
  }

  lemma LinkedLater(queue: seq<int>, log: seq<int>, now: int, later: int, limit: Limit)
    requires Linked(queue, log, now, limit) && now <= later
    ensures Linked(queue, log, later, limit)
  {
  }

  lemma LinkedDecides(s: Store, key: string, log: seq<int>, now: int, limit: Limit)
    requires WellKept(s) && Linked(Queue(s, key), log, now, limit)
    ensures Admits(s, key, limit, now) <==> Recent(log, now, limit.duration) < Quota(limit)
  {
    var q := Queue(s, key);
    if |q| < Quota(limit) {
      RecentAtMost(log, |log| - |q|, now, limit.duration);
    } else {
      RecentFewerThan(log, now, limit.duration, |q|);
    }
  }

  /** Forgetting a queue whose newest entry is out of the window keeps the link. */
  lemma LinkedForgets(queue: seq<int>, log: seq<int>, now: int, limit: Limit, expiration: int)
    requires Linked(queue, log, now, limit) && queue != []
    requires Stale(queue, expiration, now) && limit.duration <= expiration + 1
    ensures Linked([], log, now, limit)
  {
    assert log[|log| - |queue|..][|queue| - 1] == log[|log| - 1];
  }

  lemma AppendAscends(log: seq<int>, now: int)
    requires Ascending(log) && (log != [] ==> log[|log| - 1] <= now)
    ensures Ascending(log + [now])
  {
  }

  function Pushed(queue: seq<int>, now: int, limit: Limit): seq<int>
    requires queue != [] || Quota(limit) > 0
  {
    if |queue| < Quota(limit) then queue + [now] else queue[1..] + [now]
  }

  lemma LinkedGrants(s: Store, key: string, log: seq<int>, now: int, limit: Limit)
    requires WellKept(s) && Linked(Queue(s, key), log, now, limit)
    requires Admits(s, key, limit, now)
    ensures Linked(Pushed(Queue(s, key), now, limit), log + [now], now, limit)
  {
    var q, log' := Queue(s, key), log + [now];
    AppendAscends(log, now);
    if |q| < Quota(limit) {
      assert q + [now] == log'[|log| - |q|..];
      assert forall i :: 0 <= i < |log| - |q| ==> log'[i] == log[i];
    } else {
      assert q[1..] == log[|log| - |q| + 1..];
      assert q[1..] + [now] == log'[|log| - |q| + 1..];
    }
  }

  /** Peek answers what Request would answer at the same instant, and granting moves the queue as stated. */
  lemma PeekIsRequest(env: Settings, s: Store, key: string, limit: Limit, now: int, granted: bool, after: Store)
    requires WellKept(s) && Requested(env, s, key, limit, now, granted, after)
    requires key in s ==> |s[key]| <= Quota(limit)
    ensures granted <==> Admits(s, key, limit, now)
    ensures granted ==>
      key in after && after[key] == Pushed(Queue(s, key), now, limit)
    ensures !granted ==> after == s
  {
    if key in s && limit.requests == 0 {
      assert |s[key]| == 1;
    }
    assert key !in s ==> Queue(s, key) + [now] == [now];
  }

  // ---- every run ----

  /** Garbage collection can only drop timestamps that no decision looks at. */
  predicate Collectable(env: Settings, limit: Limit) {
    env.Sweeping() ==> limit.duration <= env.Expiration() + 1
  }

  lemma PurgedKeeps(env: Settings, s: Store, key: string, now: int)
    requires WellKept(s)
    ensures var live := Purged(s, env.Expiration(), now);
      && (key in live ==> key in s && live[key] == s[key])
      && (key in s && key !in live ==> env.Sweeping() && Stale(s[key], env.Expiration(), now))
  {
  }

  /** What an eviction on behalf of another key does to a linked queue. */
  lemma EvictionLinks(env: Settings, limits: string -> Limit, step: Step, key: string, log: seq<int>)
    requires Legal(env, limits, step) && step.action.Request? && step.action.key != key
    requires Collectable(env, limits(key))
    requires Linked(Queue(step.before, key), log, step.now, limits(key))
    ensures Linked(Queue(step.after, key), if ForcedOut(env, step, key) then [] else log, step.now, limits(key))
  {
    var k, s := step.action.key, step.before;
    if k !in s {
      var left := step.after - {k};
      assert Evicted(env, s, left, step.now);
      PurgedKeeps(env, s, key, step.now);
      assert Queue(step.after, key) == Queue(left, key);
      if key in s && key !in left && !ForcedOut(env, step, key) {
        LinkedForgets(s[key], log, step.now, limits(key), env.Expiration());
      }
    }
  }

  lemma RequestLinks(env: Settings, limits: string -> Limit, step: Step, log: seq<int>)
    requires Legal(env, limits, step) && step.action.Request?
    requires Linked(Queue(step.before, step.action.key), log, step.now, limits(step.action.key))
    ensures Linked(Queue(step.after, step.action.key), if step.granted then log + [step.now] else log,
      step.now, limits(step.action.key))
  {
    var key := step.action.key;
    PeekIsRequest(env, step.before, key, limits(key), step.now, step.granted, step.after);
    if step.granted {
      LinkedGrants(step.before, key, log, step.now, limits(key));
    }
  }

  lemma StepLinks(env: Settings, limits: string -> Limit, step: Step, key: string, log: seq<int>)
    requires Legal(env, limits, step) && Collectable(env, limits(key))
    requires Linked(Queue(step.before, key), log, step.now, limits(key))
    ensures Linked(Queue(step.after, key), LogStep(env, step, key, log), step.now, limits(key))
  {
    match step.action {
      case Request(k) =>
        if k == key {
          RequestLinks(env, limits, step, log);
        } else {
          EvictionLinks(env, limits, step, key, log);
        }
      case Sweep =>
        if key in step.before && key !in step.after {
          LinkedForgets(step.before[key], log, step.now, limits(key), env.Expiration());
        }
      case Delete(_) =>
    }
  }

  lemma StepKeepsWell(env: Settings, limits: string -> Limit, step: Step)
    requires Legal(env, limits, step)
    ensures WellKept(step.after)
  {
    if step.action.Request? && step.action.key !in step.before {
      var left := step.after - {step.action.key};
      assert Evicted(env, step.before, left, step.now);
      forall k | k in left ensures left[k] != [] {
        PurgedKeeps(env, step.before, k, step.now);
      }
      forall k | k in step.after ensures step.after[k] != [] {
        assert k == step.action.key || (k in left && left[k] == step.after[k]);
      }
    }
  }

  /** In every run every stored queue has a grant in it; so no step of a run is illegal for want of that. */
  lemma {:induction false} EveryRunWellKept(env: Settings, limits: string -> Limit, steps: seq<Step>)
    requires IsRun(env, limits, steps)
    ensures WellKept(StoreAfter(steps))
  {
    if steps != [] {
      EveryRunWellKept(env, limits, steps[..|steps| - 1]);
      StepKeepsWell(env, limits, steps[|steps| - 1]);
    }
  }

  lemma {:induction false} RunsStayLinked(env: Settings, limits: string -> Limit, steps: seq<Step>, key: string, now: int)
    requires IsRun(env, limits, steps) && Collectable(env, limits(key))
    requires steps != [] ==> steps[|steps| - 1].now <= now
    ensures Linked(Queue(StoreAfter(steps), key), LogOf(env, steps, key), now, limits(key))
  {
    if steps != [] {
      var front, last := steps[..|steps| - 1], steps[|steps| - 1];
      RunsStayLinked(env, limits, front, key, last.now);
      StepLinks(env, limits, last, key, LogOf(env, front, key));
      LinkedLater(Queue(last.after, key), LogOf(env, steps, key), last.now, now, limits(key));
    }
  }

  lemma {:induction false} RunPrefix(env: Settings, limits: string -> Limit, steps: seq<Step>, i: nat)
    requires IsRun(env, limits, steps) && i < |steps|
    ensures IsRun(env, limits, steps[..i]) && Legal(env, limits, steps[i])
    ensures steps[i].before == StoreAfter(steps[..i])
    ensures i > 0 ==> steps[i - 1].now <= steps[i].now
  {
    var front := steps[..|steps| - 1];
    if i < |front| {
      RunPrefix(env, limits, front, i);
      assert front[..i] == steps[..i];
    }
  }

  /** The bounded queue decides every request of every run as the full log would. */
  lemma EveryRequestDecidedAsFullLog(env: Settings, limits: string -> Limit, steps: seq<Step>)
    requires IsRun(env, limits, steps)
    requires forall key :: Collectable(env, limits(key))
    ensures DecidesAsFullLog(env, limits, steps)
  {
    forall i | 0 <= i < |steps| && steps[i].action.Request?
      ensures var key := steps[i].action.key;
        steps[i].granted <==>
        Recent(LogOf(env, steps[..i], key), steps[i].now, limits(key).duration) < Quota(limits(key))
    {
      var key, step := steps[i].action.key, steps[i];
      RunPrefix(env, limits, steps, i);
      RunsStayLinked(env, limits, steps[..i], key, step.now);
      PeekIsRequest(env, step.before, key, limits(key), step.now, step.granted, step.after);
      LinkedDecides(step.before, key, LogOf(env, steps[..i], key), step.now, limits(key));
    }
  }

  /** Any Quota + 1 consecutive grants of a key span at least its duration. */
  lemma {:induction false} GrantsAreSpread(env: Settings, limits: string -> Limit, steps: seq<Step>, key: string, i: nat)
    requires IsRun(env, limits, steps) && Collectable(env, limits(key))
    requires i + Quota(limits(key)) < |LogOf(env, steps, key)|
    ensures var log := LogOf(env, steps, key);
      log[i + Quota(limits(key))] - log[i] >= limits(key).duration
  {
    var front, last := steps[..|steps| - 1], steps[|steps| - 1];
    var log, log', quota := LogOf(env, front, key), LogOf(env, steps, key), Quota(limits(key));
    if i + quota < |log| {
      GrantsAreSpread(env, limits, front, key, i);
    } else {
      RunsStayLinked(env, limits, front, key, last.now);
      PeekIsRequest(env, last.before, key, limits(key), last.now, last.granted, last.after);
      LinkedDecides(last.before, key, log, last.now, limits(key));
      RecentFewerThan(log, last.now, limits(key).duration, quota);
    }
  }

  lemma StepKeepsQueueWithinLog(env: Settings, limits: string -> Limit, step: Step, key: string, log: seq<int>)
    requires Legal(env, limits, step)
    requires |Queue(step.before, key)| <= |log| && |Queue(step.before, key)| <= Quota(limits(key))
    ensures |Queue(step.after, key)| <= |LogStep(env, step, key, log)|
    ensures |Queue(step.after, key)| <= Quota(limits(key))
  {
    if step.action.Request? {
      if step.action.key == key {
        PeekIsRequest(env, step.before, key, limits(key), step.now, step.granted, step.after);
      } else if step.action.key !in step.before {
        var left := step.after - {step.action.key};
        assert Evicted(env, step.before, left, step.now);
        PurgedKeeps(env, step.before, key, step.now);
        assert Queue(step.after, key) == Queue(left, key);
      }
    }
  }

  /** The queue never holds more than the log nor more than the quota, whatever the durations are. */
  lemma {:induction false} QueueWithinLog(env: Settings, limits: string -> Limit, steps: seq<Step>, key: string)
    requires IsRun(env, limits, steps)
    ensures |Queue(StoreAfter(steps), key)| <= |LogOf(env, steps, key)|
    ensures |Queue(StoreAfter(steps), key)| <= Quota(limits(key))
  {
    if steps != [] {
      var front, last := steps[..|steps| - 1], steps[|steps| - 1];
      QueueWithinLog(env, limits, front, key);
      StepKeepsQueueWithinLog(env, limits, last, key, LogOf(env, front, key));
    }
  }

  /** After a deletion (or at the start) the next Quota requests of a key are granted, evictions or not. */
  lemma FirstRequestsGranted(env: Settings, limits: string -> Limit, steps: seq<Step>, i: nat)
    requires IsRun(env, limits, steps) && i < |steps| && steps[i].action.Request?
    requires |LogOf(env, steps[..i], steps[i].action.key)| < Quota(limits(steps[i].action.key))
    ensures steps[i].granted
  {
    var step := steps[i];
    RunPrefix(env, limits, steps, i);
    QueueWithinLog(env, limits, steps[..i], step.action.key);
    PeekIsRequest(env, step.before, step.action.key, limits(step.action.key), step.now, step.granted, step.after);
  }

  /** An eviction always leaves room for one key. */
  lemma FreedSlot(env: Settings, s: Store, left: Store, now: int)
    requires WellKept(s) && Evicted(env, s, left, now)
    ensures |left| < env.Cap()
  {
  }

  /**
   * From a store within the cap, an eviction drops a key that had not expired only if no key had, and
   * then it drops exactly max(1, cap / 10) of them, the least active.
   */
  lemma ForcedEvictionSize(env: Settings, s: Store, left: Store, now: int)
    requires WellKept(s) && |s| <= env.Cap() && Evicted(env, s, left, now)
    ensures left.Keys <= s.Keys
    ensures (exists k :: k in Purged(s, env.Expiration(), now) && k !in left) ==>
      && Purged(s, env.Expiration(), now) == s
      && |s.Keys - left.Keys| == if env.Cap() < 10 then 1 else env.Cap() / 10
  {
    var live := Purged(s, env.Expiration(), now);
    forall k | k in left ensures k in s {
      assert k in s || k in live;
    }
    if k :| k in live && k !in left {
      FewerKeys(live, s);
      FewerKeys(left, s);
    }
  }

  lemma StepStaysUnderCap(env: Settings, limits: string -> Limit, step: Step)
    requires Legal(env, limits, step) && |step.before| <= env.Cap()
    ensures |step.after| <= env.Cap()
  {
    match step.action {
      case Request(k) =>
        if k in step.before {
          assert step.after.Keys == step.before.Keys;
          FewerKeys(step.after, step.before);
        } else {
          var left := step.after - {k};
          assert Evicted(env, step.before, left, step.now);
          FreedSlot(env, step.before, left, step.now);
          OneKeyLess(step.after, k);
        }
      case Sweep => FewerKeys(step.after, step.before);
      case Delete(_) => FewerKeys(step.after, step.before);
    }
  }

  /** The store never holds more keys than the cap. */
  lemma {:induction false} StoreNeverOverCap(env: Settings, limits: string -> Limit, steps: seq<Step>)
    requires IsRun(env, limits, steps)
    ensures |StoreAfter(steps)| <= if env.maxKeys <= 0 then 100000 else env.maxKeys
  {
    if steps != [] {
      StoreNeverOverCap(env, limits, steps[..|steps| - 1]);
      StepStaysUnderCap(env, limits, steps[|steps| - 1]);
    }
  }

  // ---- the log and the evictions, step by step ----

  /** Recent entries are counted. */
  lemma {:induction false} RecentMeaning(log: seq<int>, now: int, duration: int)
    ensures Recent(log, now, duration) == |set i | 0 <= i < |log| && now - log[i] < duration|
  {
    if log != [] {
      var n := |log| - 1;
      var front := log[..n];
      RecentMeaning(front, now, duration);
      var before, all := set i | 0 <= i < n && now - front[i] < duration, set i | 0 <= i < |log| && now - log[i] < duration;
      assert all == before + if now - log[n] < duration then {n} else {};
    }
  }

  /** The queue of a key lies idle for longer than the expiration, where that is a second or more. */
  predicate Idle(env: Settings, queue: seq<int>, now: int) {
    env.expirationNanos >= 1000000000 && (queue == [] || now - queue[|queue| - 1] > env.expirationNanos / 1000000000)
  }

  /** A sweep keeps exactly the keys whose last grant is no older than the expiration in whole seconds. */
  lemma SweepMeaning(env: Settings, s: Store, now: int, key: string)
    requires WellKept(s) && env.expirationNanos > 0
    ensures var left := Swept(s, env.Expiration(), now);
      && (key in left <==> key in s && now - s[key][|s[key]| - 1] <= env.expirationNanos / 1000000000)
      && (key in left ==> left[key] == s[key])
  {
  }

  /** A request for another key throws this one out although it is not idle. */
  predicate ThrownOut(env: Settings, step: Step, key: string) {
    && step.action.Request? && step.action.key != key
    && key in step.before && key !in step.after
    && !Idle(env, step.before[key], step.now)
  }

  /** The step grants a request for the key. */
  predicate Grants(step: Step, key: string) {
    step.action == Request(key) && step.granted
  }

  /** The step deletes the key or throws it out. */
  predicate Clears(env: Settings, step: Step, key: string) {
    step.action == Delete(key) || ThrownOut(env, step, key)
  }

  /** Nothing clears the key after step i. */
  predicate UnclearedSince(env: Settings, steps: seq<Step>, key: string, i: nat) {
    forall j :: i < j < |steps| ==> !Clears(env, steps[j], key)
  }

  lemma LastStepLogs(env: Settings, limits: string -> Limit, step: Step, key: string, log: seq<int>)
    requires Legal(env, limits, step)
    ensures LogStep(env, step, key, log) ==
      if Clears(env, step, key) then [] else if Grants(step, key) then log + [step.now] else log
  {
    if step.action.Request? && step.action.key != key && key in step.before && key !in step.after {
      assert step.before[key] != [];
      assert ForcedOut(env, step, key) <==> ThrownOut(env, step, key);
    }
  }

  /** The indices of the steps behind a log. */
  ghost predicate Indexes(env: Settings, steps: seq<Step>, key: string, log: seq<int>, idx: seq<nat>) {
    && |idx| == |log|
    && (forall k :: 0 <= k < |idx| ==> idx[k] < |steps| && log[k] == steps[idx[k]].now)
    && (forall k, l :: 0 <= k < l < |idx| ==> idx[k] < idx[l])
    && (forall i: nat :: i in idx <==> i < |steps| && Grants(steps[i], key) && UnclearedSince(env, steps, key, i))
  }

  lemma UnclearedStep(env: Settings, front: seq<Step>, last: Step, key: string, i: nat)
    ensures UnclearedSince(env, front + [last], key, i) <==>
      UnclearedSince(env, front, key, i) && (i < |front| ==> !Clears(env, last, key))
  {
    var steps := front + [last];
    assert steps[|front|] == last && forall j :: 0 <= j < |front| ==> steps[j] == front[j];
  }

  lemma IndexesStep(env: Settings, front: seq<Step>, last: Step, key: string, log: seq<int>, idx: seq<nat>)
    requires Indexes(env, front, key, log, idx)
    ensures Clears(env, last, key) ==> Indexes(env, front + [last], key, [], [])
    ensures !Clears(env, last, key) && Grants(last, key) ==>
      Indexes(env, front + [last], key, log + [last.now], idx + [|front|])
    ensures !Clears(env, last, key) && !Grants(last, key) ==> Indexes(env, front + [last], key, log, idx)
  {
    var n := |front|;
    forall i: nat
      ensures UnclearedSince(env, front + [last], key, i) <==>
        UnclearedSince(env, front, key, i) && (i < n ==> !Clears(env, last, key))
    {
      UnclearedStep(env, front, last, key, i);
    }
    assert Clears(env, last, key) ==> !Grants(last, key);
    assert UnclearedSince(env, front, key, n);
  }

  /** The log lists, in order, the times of the grants of a key since it was last cleared. */
  lemma {:induction false} LogIsGrants(env: Settings, limits: string -> Limit, steps: seq<Step>, key: string)
    returns (idx: seq<nat>)
    requires IsRun(env, limits, steps)
    ensures Indexes(env, steps, key, LogOf(env, steps, key), idx)
  {
    idx := [];
    if steps != [] {
      var n := |steps| - 1;
      var front, last := steps[..n], steps[n];
      idx := LogIsGrants(env, limits, front, key);
      LastStepLogs(env, limits, last, key, LogOf(env, front, key));
      IndexesStep(env, front, last, key, LogOf(env, front, key), idx);
      assert front + [last] == steps;
      idx := if Clears(env, last, key) then [] else if Grants(last, key) then idx + [n] else idx;
    }
  }

  /**
   * What the request for a new key does to the others at the end of a run: nothing below the cap; at the cap
   * every idle key goes; one that is not idle goes only when none is, and none that stays was active before it.
   */
  lemma NewKeyEvicts(env: Settings, limits: string -> Limit, steps: seq<Step>)
    requires IsRun(env, limits, steps) && steps != []
    requires steps[|steps| - 1].action.Request? && steps[|steps| - 1].action.key !in steps[|steps| - 1].before
    ensures var step := steps[|steps| - 1]; var cap := if env.maxKeys <= 0 then 100000 else env.maxKeys;
      && (forall k :: k in step.after && k != step.action.key ==> k in step.before && step.after[k] == step.before[k])
      && (|step.before| < cap ==> forall k :: k in step.before ==> k in step.after)
      && (|step.before| >= cap ==> forall k :: k in step.before && Idle(env, step.before[k], step.now) ==> k !in step.after)
      && (forall gone, kept :: gone in step.before && ThrownOut(env, step, gone) && kept in step.before ==>
            && !Idle(env, step.before[kept], step.now)
            && (kept in step.after ==> Last(step.before[gone]) <= Last(step.before[kept])))
  {
    var front, step := steps[..|steps| - 1], steps[|steps| - 1];
    StoreNeverOverCap(env, limits, front);
    var s, left := step.before, step.after - {step.action.key};
    var live := Purged(s, env.Expiration(), step.now);
    assert forall k :: k in s ==> (k in live <==> !Idle(env, s[k], step.now));
    assert forall k :: k in live ==> k in s && live[k] == s[k];
    assert forall k :: k in left <==> k in step.after && k != step.action.key;
    if k :| k in s && Idle(env, s[k], step.now) {
      SomeKeyLess(live, s, k);
    }
    if |s| >= env.Cap() && |live| >= env.Cap() {
      forall k | k in s ensures k in live {
        if k !in live {
          SomeKeyLess(live, s, k);
        }
      }
    }
  }

  // ---- when garbage collection shows ----

  function Zeros(m: nat): seq<int> {
    if m == 0 then [] else Zeros(m - 1) + [0]
  }

  function BurstStore(key: string, m: nat): Store {
    if m == 0 then map[] else map[key := Zeros(m)]
  }

  function BurstStep(key: string, m: nat): Step
    requires m > 0
  {
    Step(Request(key), 0, true, BurstStore(key, m - 1), BurstStore(key, m))
  }

  /** m requests for one key at time zero. */
  function Burst(key: string, m: nat): seq<Step> {
    if m == 0 then []
    else Burst(key, m - 1) + [BurstStep(key, m)]
  }

  lemma RunExtends(env: Settings, limits: string -> Limit, steps: seq<Step>, step: Step, key: string)
    requires IsRun(env, limits, steps) && Legal(env, limits, step)
    requires step.before == StoreAfter(steps)
    requires steps != [] ==> steps[|steps| - 1].now <= step.now
    ensures IsRun(env, limits, steps + [step])
    ensures LogOf(env, steps + [step], key) == LogStep(env, step, key, LogOf(env, steps, key))
  {
    assert (steps + [step])[..|steps + [step]| - 1] == steps;
  }

  lemma {:induction false} ZerosLength(m: nat)
    ensures |Zeros(m)| == m && (m > 0 ==> Zeros(m)[m - 1] == 0)
  {
    if m > 0 {
      ZerosLength(m - 1);
    }
  }

  lemma FirstRequestLegal(env: Settings, limits: string -> Limit, key: string, now: int)
    ensures Legal(env, limits, Step(Request(key), now, true, map[], map[key := [now]]))
  {
    var after: Store := map[key := [now]];
    assert after - {key} == map[];
    assert Evicted(env, map[], map[], now);
  }

  lemma BurstStepLegal(env: Settings, limits: string -> Limit, key: string, m: nat)
    requires 0 < m <= Quota(limits(key))
    ensures Legal(env, limits, BurstStep(key, m))
  {
    if m == 1 {
      FirstRequestLegal(env, limits, key, 0);
      assert Zeros(1) == [0];
    } else {
      ZerosLength(m - 1);
      var s := BurstStore(key, m - 1);
      assert s[key := s[key] + [0]] == BurstStore(key, m);
    }
  }

  ghost predicate IsBurst(env: Settings, limits: string -> Limit, key: string, m: nat, steps: seq<Step>) {
    && IsRun(env, limits, steps) && StoreAfter(steps) == BurstStore(key, m)
    && LogOf(env, steps, key) == Zeros(m)
    && |steps| == m && (m > 0 ==> steps[m - 1].now == 0)
  }

  lemma BurstGrows(env: Settings, limits: string -> Limit, key: string, m: nat, steps: seq<Step>)
    requires m < Quota(limits(key)) && IsBurst(env, limits, key, m, steps)
    ensures IsBurst(env, limits, key, m + 1, steps + [BurstStep(key, m + 1)])
  {
    BurstStepLegal(env, limits, key, m + 1);
    RunExtends(env, limits, steps, BurstStep(key, m + 1), key);
  }

  lemma {:induction false} BurstRuns(env: Settings, limits: string -> Limit, key: string, m: nat)
    requires m <= Quota(limits(key))
    ensures IsBurst(env, limits, key, m, Burst(key, m))
  {
    if m > 0 {
      BurstRuns(env, limits, key, m - 1);
      BurstGrows(env, limits, key, m - 1, Burst(key, m - 1));
    }
  }

  lemma {:induction false} ZerosRecent(m: nat, now: int, d: int)
    requires now < d
    ensures Recent(Zeros(m), now, d) == m
  {
    if m > 0 {
      ZerosRecent(m - 1, now, d);
      assert Zeros(m)[..|Zeros(m)| - 1] == Zeros(m - 1);
    }
  }

  function SweepStep(env: Settings, key: string, quota: nat): Step {
    Step(Sweep, env.Expiration() + 1, false, BurstStore(key, quota), map[])
  }

  function LateRequest(env: Settings, key: string): Step {
    var now := env.Expiration() + 1;
    Step(Request(key), now, true, map[], map[key := [now]])
  }

  /** A full burst, a sweep one second after the expiration, and one more request. */
  function SlipThrough(env: Settings, key: string, quota: nat): seq<Step> {
    Burst(key, quota) + [SweepStep(env, key, quota)] + [LateRequest(env, key)]
  }

  lemma SweepStepLegal(env: Settings, limits: string -> Limit, key: string, quota: nat)
    requires env.Sweeping() && quota > 0
    ensures Legal(env, limits, SweepStep(env, key, quota))
  {
    ZerosLength(quota);
    var s, e := BurstStore(key, quota), env.Expiration();
    assert Stale(s[key], e, e + 1);
    assert Swept(s, e, e + 1) == map[];
  }

  lemma SweptBurst(env: Settings, limits: string -> Limit, key: string)
    requires env.Sweeping()
    ensures var quota := Quota(limits(key)); var swept := Burst(key, quota) + [SweepStep(env, key, quota)];
      && IsRun(env, limits, swept) && |swept| == quota + 1
      && StoreAfter(swept) == map[] && LogOf(env, swept, key) == Zeros(quota)
  {
    var quota := Quota(limits(key));
    BurstRuns(env, limits, key, quota);
    SweepStepLegal(env, limits, key, quota);
    RunExtends(env, limits, Burst(key, quota), SweepStep(env, key, quota), key);
  }

  lemma SlipThroughRuns(env: Settings, limits: string -> Limit, key: string)
    requires env.Sweeping()
    ensures var quota := Quota(limits(key)); var steps := SlipThrough(env, key, quota);
      && IsRun(env, limits, steps) && |steps| == quota + 2
      && LogOf(env, steps[..quota + 1], key) == Zeros(quota)
      && steps[quota + 1] == LateRequest(env, key)
  {
    var quota := Quota(limits(key));
    var swept := Burst(key, quota) + [SweepStep(env, key, quota)];
    SweptBurst(env, limits, key);
    FirstRequestLegal(env, limits, key, env.Expiration() + 1);
    RunExtends(env, limits, swept, LateRequest(env, key), key);
    assert SlipThrough(env, key, quota)[..quota + 1] == swept;
  }

  lemma OneDecisionDiffers(env: Settings, limits: string -> Limit, steps: seq<Step>, i: nat, key: string)
    requires i < |steps| && steps[i].action == Request(key)
    requires steps[i].granted <==> Recent(LogOf(env, steps[..i], key), steps[i].now, limits(key).duration) >= Quota(limits(key))
    ensures !DecidesAsFullLog(env, limits, steps)
  {
    assert steps[i].action.Request?;
  }

  /** The sweep forgets a full burst while the window still covers it, and the next request slips through. */
  lemma SweepShows(env: Settings, limits: string -> Limit, key: string)
    requires !Collectable(env, limits(key))
    ensures exists steps :: IsRun(env, limits, steps) && !DecidesAsFullLog(env, limits, steps)
  {
    var quota := Quota(limits(key));
    var steps := SlipThrough(env, key, quota);
    SlipThroughRuns(env, limits, key);
    ZerosRecent(quota, env.Expiration() + 1, limits(key).duration);
    var last := steps[quota + 1];
    assert last.action == Request(key) && last.granted && last.now == env.Expiration() + 1;
    OneDecisionDiffers(env, limits, steps, quota + 1, key);
  }

  /**
   * Forgetting is invisible, on every run, exactly when no sweeper runs or no duration exceeds the key
   * expiration by more than one second.
   */
  lemma ForgettingInvisibleIff(env: Settings, limits: string -> Limit)
    ensures (forall steps :: IsRun(env, limits, steps) ==> DecidesAsFullLog(env, limits, steps))
      <==> (forall key :: env.expirationNanos <= 0 || limits(key).duration <= env.expirationNanos / 1000000000 + 1)
  {
    forall key
      ensures Collectable(env, limits(key))
        <==> (env.expirationNanos <= 0 || limits(key).duration <= env.expirationNanos / 1000000000 + 1)
    {
    }
    if forall key :: Collectable(env, limits(key)) {
      forall steps | IsRun(env, limits, steps) ensures DecidesAsFullLog(env, limits, steps) {
        EveryRequestDecidedAsFullLog(env, limits, steps);
      }
    } else {
      var key :| !Collectable(env, limits(key));
      SweepShows(env, limits, key);
    }
  }
}
