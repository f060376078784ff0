/**
 * The in-memory rate limiter as a transition system over values: a store of bounded timestamp queues,
 * one per key, from which stale or surplus keys may be dropped. Time is counted in whole seconds.
 */
module RateLimitSpec {
  import opened Clock

  const MAX_KEYS_DEFAULT := 100000

  type Store = map<string, seq<int>>

  /** What a caller passes with a key: at most `requests` grants in any `duration` seconds. */
  datatype Limit = Limit(requests: nat, duration: int)

  datatype Settings = Settings(maxKeys: int, expirationNanos: int) {
    function Cap(): int {
      if maxKeys <= 0 then MAX_KEYS_DEFAULT else maxKeys
    }

    /** The expiration in whole seconds. */
    function Expiration(): int {
      WholeSeconds(expirationNanos)
    }

    /** The background sweeper is started only for a positive expiration. */
    predicate Sweeping() {
      expirationNanos > 0
    }

    /** How many keys a forced eviction leaves. */
    function Target(): int {
      Cap() - if Cap() / 10 < 1 then 1 else Cap() / 10
    }
  }

  ghost predicate WellKept(s: Store) {
    forall k :: k in s ==> s[k] != []
  }

  function Last(q: seq<int>): int
    requires q != []
  {
    q[|q| - 1]
  }

  predicate Stale(q: seq<int>, expiration: int, now: int) {
    q == [] || now - Last(q) > expiration
  }

  /** One tick of the background sweep. */
  function Swept(s: Store, expiration: int, now: int): Store {
    map k | k in s && !Stale(s[k], expiration, now) :: s[k]
  }

  /** First phase of an eviction: the same test, but only for an expiration of at least one second. */
  function Purged(s: Store, expiration: int, now: int): Store {
    if expiration > 0 then Swept(s, expiration, now) else map k | k in s && s[k] != [] :: s[k]
  }

  /** What an eviction may leave behind; ties in activity are broken arbitrarily. */
  ghost predicate Evicted(env: Settings, s: Store, left: Store, now: int)
    requires WellKept(s)
  {
    var live := Purged(s, env.Expiration(), now);
    if |s| < env.Cap() then left == s
    else if |live| < env.Cap() then left == live
    else
      && |left| == env.Target()
      && (forall k :: k in left ==> k in live && left[k] == live[k])
      && (forall gone, kept :: gone in live && gone !in left && kept in left ==> Last(live[gone]) <= Last(live[kept]))
  }

  /** Peek: would a request be granted at this instant? */
  predicate Admits(s: Store, key: string, limit: Limit, now: int) {
    || key !in s
    || s[key] == []
    || |s[key]| < limit.requests
    || now - s[key][0] >= limit.duration
  }

  ghost predicate Requested(env: Settings, s: Store, key: string, limit: Limit, now: int, granted: bool, after: Store)
    requires WellKept(s)
  {
    if key in s then
      if |s[key]| < limit.requests then granted && after == s[key := s[key] + [now]]
      else if now - s[key][0] >= limit.duration then granted && after == s[key := s[key][1..] + [now]]
      else !granted && after == s
    else
      granted && key in after && after[key] == [now] && Evicted(env, s, after - {key}, now)
  }

  datatype Action = Request(key: string) | Sweep | Delete(key: string)

  datatype Step = Step(action: Action, now: int, granted: bool, before: Store, after: Store)

  ghost predicate Legal(env: Settings, limits: string -> Limit, step: Step) {
    && WellKept(step.before)
    && match step.action
       case Request(key) => Requested(env, step.before, key, limits(key), step.now, step.granted, step.after)
       case Sweep => env.Sweeping() && step.after == Swept(step.before, env.Expiration(), step.now)
       case Delete(key) => step.after == step.before - {key}
  }

  function StoreAfter(steps: seq<Step>): Store {
    if steps == [] then map[] else steps[|steps| - 1].after
  }

  /** A run starts from the empty store, follows the code and has a clock that never goes back. */
  ghost predicate IsRun(env: Settings, limits: string -> Limit, steps: seq<Step>) {
    steps == [] ||
    var front, last := steps[..|steps| - 1], steps[|steps| - 1];
    && IsRun(env, limits, front)
    && last.before == StoreAfter(front)
    && (front != [] ==> front[|front| - 1].now <= last.now)
    && Legal(env, limits, last)
  }

  /** A key that was thrown out although its queue had not expired. */
  predicate ForcedOut(env: Settings, step: Step, key: string) {
    && key in step.before && key !in step.after
    && key in Purged(step.before, env.Expiration(), step.now)
  }

  /** What one step does to the full request log of a key. */
  function LogStep(env: Settings, step: Step, key: string, log: seq<int>): seq<int> {
    match step.action
    case Request(k) =>
      if k == key then (if step.granted then log + [step.now] else log)
      else if ForcedOut(env, step, key) then [] else log
    case Sweep => log
    case Delete(k) => if k == key then [] else log
  }

  /**
   * The full request log of a key, which nothing but a deletion or a forced eviction clears: the time of
   * every grant, earliest first.
   */
  function LogOf(env: Settings, steps: seq<Step>, key: string): seq<int> {
    if steps == [] then []
    else LogStep(env, steps[|steps| - 1], key, LogOf(env, steps[..|steps| - 1], key))
  }

  /** How many entries of a log lie less than `duration` seconds back. */
  function Recent(log: seq<int>, now: int, duration: int): nat {
    if log == [] then 0
    else Recent(log[..|log| - 1], now, duration) + if now - log[|log| - 1] < duration then 1 else 0
  }

  /** A limit of zero requests still grants the first request of a key, so it acts as a limit of one. */
  function Quota(limit: Limit): (quota: nat) {
    if limit.requests == 0 then 1 else limit.requests
  }

  /** Every request of the run is decided as the full log would decide it. */
  ghost predicate DecidesAsFullLog(env: Settings, limits: string -> Limit, steps: seq<Step>) {
    forall i :: 0 <= i < |steps| && steps[i].action.Request? ==>
      var key := steps[i].action.key;
      steps[i].granted <==>
      Recent(LogOf(env, steps[..i], key), steps[i].now, limits(key).duration) < Quota(limits(key))
  }
}
