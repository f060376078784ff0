/** The rate limiter as the object the middleware shares; each method runs under the object's mutex. */
module RateLimiter {
  import opened OldestFirst
  import opened RateLimitSpec

  /** The last activity of every key. */
  ghost function Activity(s: Store): map<string, int>
    requires WellKept(s)
  {
    map k | k in s :: Last(s[k])
  }

  class InMemoryRateLimiter {
    var store: Store
    const env: Settings

    ghost predicate Valid()
      reads this
    {
      WellKept(store)
    }

    constructor (env: Settings)
      ensures Valid() && this.env == env && store == map[]
    {
      this.env := env;
      store := map[];
    }

    /** One tick of the background sweeper, which only a positive expiration starts. */
    method ClearExpiredItems(now: int)
      requires Valid() && env.Sweeping()
      modifies this`store
      ensures Valid() && store == Swept(old(store), env.Expiration(), now)
    {
      var todo := store.Keys;
      while todo != {}
        invariant todo <= store.Keys
        invariant store == map k | k in old(store) && (k in todo || !Stale(old(store)[k], env.Expiration(), now)) :: old(store)[k]
      {
        var key :| key in todo;
        if Stale(store[key], env.Expiration(), now) {
          store := store - {key};
        }
        todo := todo - {key};
      }
    }

    method DropExpired(now: int)
      requires Valid()
      modifies this`store
      ensures Valid() && store == Purged(old(store), env.Expiration(), now)
    {
      var expiration := env.Expiration();
      var todo := store.Keys;
      while todo != {}
        invariant todo <= store.Keys
        invariant store == map k | k in old(store) && (k in todo || k in Purged(old(store), expiration, now)) :: old(store)[k]
      {
        var key :| key in todo;
        var queue := store[key];
        if queue == [] || (expiration > 0 && now - Last(queue) > expiration) {
          store := store - {key};
        }
        todo := todo - {key};
      }
    }

    method ActivityOf() returns (entries: seq<Aged>)
      requires Valid()
      ensures Lists(entries, Activity(store))
    {
      entries := [];
      var todo := store.Keys;
      while todo != {}
        invariant todo <= store.Keys
        invariant |entries| + |todo| == |store.Keys|
        invariant forall e :: e in entries <==> e.key in store && e.key !in todo && e.time == Last(store[e.key])
        invariant forall i, j :: 0 <= i < j < |entries| ==> entries[i].key != entries[j].key
      {
        var key :| key in todo;
        assert forall i :: 0 <= i < |entries| ==> entries[i] in entries;
        entries := entries + [Aged(key, Last(store[key]))];
        todo := todo - {key};
      }
      assert Activity(store).Keys == store.Keys;
      assert |Activity(store)| == |Activity(store).Keys|;
    }

    method EvictIfFullLocked(now: int)
      requires Valid()
      modifies this`store
      ensures Valid() && Evicted(env, old(store), store, now)
    {
      if |store| < env.Cap() {
        return;
      }
      DropExpired(now);
      if |store| < env.Cap() {
        return;
      }
      var unsorted := ActivityOf();
      var entries := ByAge(unsorted, Activity(store));
      assert Activity(store).Keys == store.Keys;
      store := DropOldest(store, entries, env.Target(), Activity(store));
    }

    method Delete(key: string)
      requires Valid()
      modifies this`store
      ensures Valid() && store == old(store) - {key}
    {
      store := store - {key};
    }

    method Peek(key: string, maxRequestNum: nat, duration: int, now: int) returns (ok: bool)
      ensures ok == Admits(store, key, Limit(maxRequestNum, duration), now)
    {
      if key !in store || |store[key]| == 0 {
        return true;
      }
      var queue := store[key];
      if |queue| < maxRequestNum {
        return true;
      }
      return now - queue[0] >= duration;
    }

    method Request(key: string, maxRequestNum: nat, duration: int, now: int) returns (granted: bool)
      requires Valid()
      modifies this`store
      ensures Valid() && Requested(env, old(store), key, Limit(maxRequestNum, duration), now, granted, store)
    {
      if key in store {
        var queue := store[key];
        if |queue| < maxRequestNum {
          store := store[key := queue + [now]];
          return true;
        } else if now - queue[0] >= duration {
          queue := queue[1..];
          store := store[key := queue + [now]];
          return true;
        } else {
          return false;
        }
      }
      EvictIfFullLocked(now);
      ghost var left := store;
      EvictedSubset(env, old(store), left, now);
      store := store[key := [now]];
      assert store - {key} == left;
      return true;
    }
  }

  lemma EvictedSubset(env: Settings, s: Store, left: Store, now: int)
    requires WellKept(s) && Evicted(env, s, left, now)
    ensures left.Keys <= s.Keys
  {
    forall k | k in left ensures k in s {
      assert k in s || k in Purged(s, env.Expiration(), now);
    }
  }
}
