/** Theorems about every run of the verification store. */
module VerificationRuns {
  import opened Clock
  import opened Maps
  import opened Options
  import opened VerificationSpec

  lemma ExpiredForever(entry: Entry, now: int, later: int)
    requires Expired(entry, now) && now <= later
    ensures Expired(entry, later)
  {
  }

  /** An entry is valid for exactly ten minutes, to the nanosecond. */
  lemma ExpiryExact(entry: Entry, now: int)
    ensures Expired(entry, now) <==> now - entry.time >= 600000000000
  {
  }

  /** The store has the latest entry, or has forgotten an expired one. */
  ghost predicate Remembers(s: Store, key: string, latest: Option<Entry>, now: int) {
    if key in s then latest == Some(s[key]) else latest.Some? ==> Expired(latest.value, now)
  }

  lemma StepRemembers(maxSize: nat, step: Step, key: string, latest: Option<Entry>)
    requires Legal(maxSize, step) && Remembers(step.before, key, latest, step.now)
    ensures Remembers(step.after, key, LatestStep(step, key, latest), step.evictNow)
  {
    match step.action {
      case Register(k, code) =>
        var added := step.before[k := Entry(code, step.now)];
        if key in added {
          RegisterRemembers(maxSize, step, key);
        }
        if key != k && latest.Some? && key !in step.before {
          ExpiredForever(latest.value, step.now, step.evictNow);
        }
        EvictedSubset(added, step.after, maxSize, step.evictNow);
      case Delete(_) =>
        if latest.Some? && key !in step.before {
          ExpiredForever(latest.value, step.now, step.evictNow);
        }
    }
  }

  lemma EvictedSubset(s: Store, left: Store, maxSize: nat, now: int)
    requires Evicted(s, left, maxSize, now)
    ensures left.Keys <= s.Keys && forall k :: k in left ==> left[k] == s[k]
  {
  }

  lemma RegisterRemembers(maxSize: nat, step: Step, key: string)
    requires Legal(maxSize, step) && step.action.Register?
    requires var added := step.before[step.action.key := Entry(step.action.code, step.now)]; key in added
    ensures var added := step.before[step.action.key := Entry(step.action.code, step.now)];
      && (key in step.after ==> step.after[key] == added[key])
      && (key !in step.after ==> ForcedOut(step, key) || Expired(added[key], step.evictNow))
  {
  }

  lemma RemembersLater(s: Store, key: string, latest: Option<Entry>, now: int, later: int)
    requires Remembers(s, key, latest, now) && now <= later
    ensures Remembers(s, key, latest, later)
  {
    if latest.Some? && key !in s {
      ExpiredForever(latest.value, now, later);
    }
  }

  lemma {:induction false} EveryRunRemembers(maxSize: nat, steps: seq<Step>, key: string, now: int)
    requires IsRun(maxSize, steps)
    requires steps != [] ==> steps[|steps| - 1].evictNow <= now
    ensures Remembers(StoreAfter(steps), key, Latest(steps, key), now)
  {
    if steps != [] {
      var front, last := steps[..|steps| - 1], steps[|steps| - 1];
      EveryRunRemembers(maxSize, front, key, last.now);
      StepRemembers(maxSize, last, key, Latest(front, key));
      RemembersLater(last.after, key, Latest(steps, key), last.evictNow, now);
    }
  }

  /**
   * In every run, a code verifies iff it is the latest one registered under the key, still valid, and
   * neither deleted nor forced out: dropping expired entries never shows.
   */
  lemma VerifiesIffLatest(maxSize: nat, steps: seq<Step>, key: string, code: string, now: int)
    requires IsRun(maxSize, steps)
    requires steps != [] ==> steps[|steps| - 1].evictNow <= now
    ensures Verifies(StoreAfter(steps), key, code, now) <==>
      Latest(steps, key).Some? && Latest(steps, key).value.code == code && !Expired(Latest(steps, key).value, now)
  {
    EveryRunRemembers(maxSize, steps, key, now);
  }

  lemma StepWithinCap(maxSize: nat, step: Step)
    requires Legal(maxSize, step) && |step.before| <= maxSize
    ensures |step.after| <= maxSize
  {
    if step.action.Delete? {
      FewerKeys(step.after, step.before);
    }
  }

  /** The store never exceeds its cap after a registration or a deletion. */
  lemma {:induction false} StoreWithinCap(maxSize: nat, steps: seq<Step>)
    requires IsRun(maxSize, steps)
    ensures |StoreAfter(steps)| <= maxSize
  {
    if steps != [] {
      StoreWithinCap(maxSize, steps[..|steps| - 1]);
      StepWithinCap(maxSize, steps[|steps| - 1]);
    }
  }

  /** No entry is from later than the last registration or deletion. */
  lemma {:induction false} TimesInThePast(maxSize: nat, steps: seq<Step>, key: string)
    requires IsRun(maxSize, steps) && steps != [] && key in StoreAfter(steps)
    ensures StoreAfter(steps)[key].time <= steps[|steps| - 1].now
  {
    var front, last := steps[..|steps| - 1], steps[|steps| - 1];
    if last.action.Register? {
      var added := last.before[last.action.key := Entry(last.action.code, last.now)];
      EvictedSubset(added, last.after, maxSize, last.evictNow);
    }
    if key in last.before && front != [] {
      TimesInThePast(maxSize, front, key);
    }
  }

  /**
   * One registration forces out at most one entry, only when nothing has expired, and that one is no
   * newer than any entry that stays.
   */
  lemma AtMostOneForcedOut(maxSize: nat, steps: seq<Step>, a: string, b: string)
    requires IsRun(maxSize, steps) && steps != []
    requires ForcedOut(steps[|steps| - 1], a) && ForcedOut(steps[|steps| - 1], b)
    ensures a == b
    ensures forall kept :: kept in StoreAfter(steps) ==>
      var last := steps[|steps| - 1];
      last.before[last.action.key := Entry(last.action.code, last.now)][a].time <= StoreAfter(steps)[kept].time
  {
    var front, last := steps[..|steps| - 1], steps[|steps| - 1];
    StoreWithinCap(maxSize, front);
    var key := last.action.key;
    var added := last.before[key := Entry(last.action.code, last.now)];
    OneMoreAtMost(last.before, key, Entry(last.action.code, last.now));
    var live := Unexpired(added, last.evictNow);
    FewerKeys(live, added);
    FewerKeys(last.after, live);
    OnlyOneMissing(live.Keys - last.after.Keys, a, b);
  }

  lemma OneMoreAtMost(s: Store, key: string, entry: Entry)
    ensures |s[key := entry]| <= |s| + 1
  {
    assert s[key := entry].Keys == s.Keys + {key};
    assert |s[key := entry]| == |s[key := entry].Keys| && |s| == |s.Keys|;
  }

  lemma OnlyOneMissing(missing: set<string>, a: string, b: string)
    requires a in missing && b in missing && |missing| <= 1
    ensures a == b
  {
    var others := missing - {a};
    assert missing == {a} + others;
    assert |others| == 0;
  }

  /** A code just registered is itself forced out only if every entry that stays has exactly its time. */
  lemma NewCodeStays(maxSize: nat, steps: seq<Step>, kept: string)
    requires IsRun(maxSize, steps) && steps != [] && steps[|steps| - 1].action.Register?
    requires ForcedOut(steps[|steps| - 1], steps[|steps| - 1].action.key)
    requires kept in StoreAfter(steps)
    ensures StoreAfter(steps)[kept].time == steps[|steps| - 1].now
  {
    var last := steps[|steps| - 1];
    AtMostOneForcedOut(maxSize, steps, last.action.key, last.action.key);
    TimesInThePast(maxSize, steps, kept);
  }

  // ---- registrations and evictions, step by step ----

  predicate TenMinutesOld(entry: Entry, now: int) {
    now - entry.time >= 600000000000
  }

  /** The store of a registration with the new entry, before anything is evicted. */
  function WithNew(step: Step): Store
    requires step.action.Register?
  {
    step.before[step.action.key := Entry(step.action.code, step.now)]
  }

  /** A registration throws the key out although its entry is not ten minutes old. */
  predicate ThrownOut(step: Step, key: string) {
    && step.action.Register? && key in WithNew(step) && key !in step.after
    && !TenMinutesOld(WithNew(step)[key], step.evictNow)
  }

  lemma UnexpiredMeaning(s: Store, now: int)
    ensures forall k :: k in s ==> (k in Unexpired(s, now) <==> !TenMinutesOld(s[k], now))
    ensures (exists k :: k in s && TenMinutesOld(s[k], now)) ==> |Unexpired(s, now)| < |s|
  {
    var live := Unexpired(s, now);
    forall k | k in s ensures k in live <==> !TenMinutesOld(s[k], now) {
      ExpiryExact(s[k], now);
    }
    if k :| k in s && TenMinutesOld(s[k], now) {
      SomeKeyLess(live, s, k);
    }
  }

  /**
   * What a registration at the end of a run evicts: nothing within the cap; beyond it every old entry; and an
   * entry that is not old only when none is, being no newer than any that stays.
   */
  lemma RegistrationEvicts(maxSize: nat, steps: seq<Step>)
    requires IsRun(maxSize, steps) && steps != [] && steps[|steps| - 1].action.Register?
    ensures var step := steps[|steps| - 1]; var all := WithNew(step);
      && (forall k :: k in step.after ==> k in all && step.after[k] == all[k])
      && (|all| <= maxSize ==> step.after == all)
      && (|all| > maxSize ==> forall k :: k in all && TenMinutesOld(all[k], step.evictNow) ==> k !in step.after)
      && (forall gone, kept :: ThrownOut(step, gone) && kept in all ==>
            && !TenMinutesOld(all[kept], step.evictNow)
            && (kept in step.after ==> all[gone].time <= all[kept].time))
  {
    var front, step := steps[..|steps| - 1], steps[|steps| - 1];
    var all := WithNew(step);
    var live := Unexpired(all, step.evictNow);
    StoreWithinCap(maxSize, front);
    OneMoreAtMost(step.before, step.action.key, Entry(step.action.code, step.now));
    UnexpiredMeaning(all, step.evictNow);
    EvictedSubset(all, step.after, maxSize, step.evictNow);
  }

  /** The step registers this entry under the key, and it stays. */
  predicate Registers(step: Step, key: string, entry: Entry) {
    step.action == Register(key, entry.code) && step.now == entry.time && !ThrownOut(step, key)
  }

  /** The step takes away what was registered under the key, or replaces it. */
  predicate Ends(step: Step, key: string) {
    step.action == Delete(key) || (step.action.Register? && step.action.key == key) || ThrownOut(step, key)
  }

  predicate UndisturbedSince(steps: seq<Step>, key: string, i: nat) {
    forall j :: i < j < |steps| ==> !Ends(steps[j], key)
  }

  lemma ForcedOutMeaning(step: Step, key: string)
    ensures ForcedOut(step, key) <==> ThrownOut(step, key)
  {
    if step.action.Register? && key in WithNew(step) {
      ExpiryExact(WithNew(step)[key], step.evictNow);
    }
  }

  /** The latest code of a key is one that was registered and that nothing has ended since. */
  lemma {:induction false} LatestMeaning(steps: seq<Step>, key: string, entry: Entry)
    ensures Latest(steps, key) == Some(entry) <==>
      exists i :: 0 <= i < |steps| && Registers(steps[i], key, entry) && UndisturbedSince(steps, key, i)
  {
    if steps != [] {
      var n := |steps| - 1;
      var front, last := steps[..n], steps[n];
      LatestMeaning(front, key, entry);
      ForcedOutMeaning(last, key);
      forall i | 0 <= i < n
        ensures UndisturbedSince(steps, key, i) <==> UndisturbedSince(front, key, i) && !Ends(last, key)
      {
        assert forall j :: i < j < n ==> front[j] == steps[j];
      }
      assert UndisturbedSince(steps, key, n);
      if Ends(last, key) {
        assert Latest(steps, key) == Some(entry) <==> Registers(last, key, entry);
      } else {
        assert Latest(steps, key) == Latest(front, key) && !Registers(last, key, entry);
        if i :| 0 <= i < n && Registers(front[i], key, entry) && UndisturbedSince(front, key, i) {
          assert Registers(steps[i], key, entry) && UndisturbedSince(steps, key, i);
        }
        if i :| 0 <= i < |steps| && Registers(steps[i], key, entry) && UndisturbedSince(steps, key, i) {
          assert i < n && Registers(front[i], key, entry) && UndisturbedSince(front, key, i);
        }
      }
    }
  }
}
