/** The in-memory verification codes as a transition system over values. Time is counted in nanoseconds. */
module VerificationSpec {
  import opened Clock
  import opened Options

  const VALID_MINUTES := 10

  datatype Entry = Entry(code: string, time: int)

  type Store = map<string, Entry>

  predicate Expired(entry: Entry, now: int) {
    WholeSeconds(now - entry.time) >= VALID_MINUTES * 60
  }

  predicate Verifies(s: Store, key: string, code: string, now: int) {
    key in s && !Expired(s[key], now) && s[key].code == code
  }

  function Unexpired(s: Store, now: int): Store {
    map k | k in s && !Expired(s[k], now) :: s[k]
  }

  /** What an eviction may leave: expired entries go first, then exactly the surplus, oldest first. */
  ghost predicate Evicted(s: Store, left: Store, maxSize: nat, now: int) {
    var live := Unexpired(s, now);
    if |s| <= maxSize then left == s
    else if |live| <= maxSize then left == live
    else
      && |left| == maxSize
      && (forall k :: k in left ==> k in live && left[k] == live[k])
      && (forall gone, kept :: gone in live && gone !in left && kept in left ==> live[gone].time <= live[kept].time)
  }

  datatype Action = Register(key: string, code: string) | Delete(key: string)

  /** A registration reads the clock once for the entry and once more for the eviction. */
  datatype Step = Step(action: Action, now: int, evictNow: int, before: Store, after: Store)

  ghost predicate Legal(maxSize: nat, step: Step) {
    && step.now <= step.evictNow
    && match step.action
       case Register(key, code) =>
         Evicted(step.before[key := Entry(code, step.now)], step.after, maxSize, step.evictNow)
       case Delete(key) => step.after == step.before - {key}
  }

  function StoreAfter(steps: seq<Step>): Store {
    if steps == [] then map[] else steps[|steps| - 1].after
  }

  ghost predicate IsRun(maxSize: nat, steps: seq<Step>) {
    steps == [] ||
    var front, last := steps[..|steps| - 1], steps[|steps| - 1];
    && IsRun(maxSize, front)
    && last.before == StoreAfter(front)
    && (front != [] ==> front[|front| - 1].evictNow <= last.now)
    && Legal(maxSize, last)
  }

  /** An entry that was thrown out although it had not expired. */
  predicate ForcedOut(step: Step, key: string) {
    match step.action
    case Register(k, code) =>
      key !in step.after && key in Unexpired(step.before[k := Entry(code, step.now)], step.evictNow)
    case Delete(_) => false
  }

  /** What one step does to the latest code of a key in the full history. */
  function LatestStep(step: Step, key: string, latest: Option<Entry>): Option<Entry> {
    if ForcedOut(step, key) then None
    else match step.action
      case Register(k, code) => if k == key then Some(Entry(code, step.now)) else latest
      case Delete(k) => if k == key then None else latest
  }

  /** The latest code registered under a key and neither deleted nor forced out since; expiry is not applied. */
  function Latest(steps: seq<Step>, key: string): Option<Entry> {
    if steps == [] then None
    else LatestStep(steps[|steps| - 1], key, Latest(steps[..|steps| - 1], key))
  }
}
