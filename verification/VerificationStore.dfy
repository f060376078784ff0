/** The global map of verification codes; each function runs under its mutex. */
module VerificationStore {
  import opened Clock
  import opened OldestFirst
  import opened VerificationSpec

  ghost function Times(s: Store): map<string, int> {
    map k | k in s :: s[k].time
  }

  class Codes {
    var entries: Store
    const maxSize: nat

    constructor (maxSize: nat)
      ensures entries == map[] && this.maxSize == maxSize
    {
      entries, this.maxSize := map[], maxSize;
    }

    method Register(key: string, code: string, now: int, evictNow: int)
      modifies this`entries
      ensures Evicted(old(entries)[key := Entry(code, now)], entries, maxSize, evictNow)
    {
      entries := entries[key := Entry(code, now)];
      EvictLocked(evictNow);
    }

    method Verify(key: string, code: string, now: int) returns (ok: bool)
      ensures ok <==> Verifies(entries, key, code, now)
    {
      if key !in entries || WholeSeconds(now - entries[key].time) >= VALID_MINUTES * 60 {
        return false;
      }
      return entries[key].code == code;
    }

    /** Some code would verify. */
    method Has(key: string, now: int) returns (present: bool)
      ensures present <==> exists code :: Verifies(entries, key, code, now)
    {
      if key !in entries {
        return false;
      }
      present := WholeSeconds(now - entries[key].time) < VALID_MINUTES * 60;
      assert present ==> Verifies(entries, key, entries[key].code, now);
    }

    method DeleteKey(key: string)
      modifies this`entries
      ensures entries == old(entries) - {key}
    {
      entries := entries - {key};
    }

    method DropExpired(now: int)
      modifies this`entries
      ensures entries == Unexpired(old(entries), now)
    {
      var todo := entries.Keys;
      while todo != {}
        invariant todo <= entries.Keys
        invariant entries == map k | k in old(entries) && (k in todo || !Expired(old(entries)[k], now)) :: old(entries)[k]
      {
        var key :| key in todo;
        if WholeSeconds(now - entries[key].time) >= VALID_MINUTES * 60 {
          entries := entries - {key};
        }
        todo := todo - {key};
      }
    }

    method TimesOf() returns (times: seq<Aged>)
      ensures Lists(times, Times(entries))
    {
      times := [];
      var todo := entries.Keys;
      while todo != {}
        invariant todo <= entries.Keys
        invariant |times| + |todo| == |entries.Keys|
        invariant forall e :: e in times <==> e.key in entries && e.key !in todo && e.time == entries[e.key].time
        invariant forall i, j :: 0 <= i < j < |times| ==> times[i].key != times[j].key
      {
        var key :| key in todo;
        assert forall i :: 0 <= i < |times| ==> times[i] in times;
        times := times + [Aged(key, entries[key].time)];
        todo := todo - {key};
      }
      assert Times(entries).Keys == entries.Keys;
      assert |Times(entries)| == |Times(entries).Keys|;
    }

    method EvictLocked(now: int)
      modifies this`entries
      ensures Evicted(old(entries), entries, maxSize, now)
    {
      if |entries| <= maxSize {
        return;
      }
      DropExpired(now);
      if |entries| <= maxSize {
        return;
      }
      var unsorted := TimesOf();
      var times := ByAge(unsorted, Times(entries));
      assert Times(entries).Keys == entries.Keys;
      entries := DropOldest(entries, times, maxSize, Times(entries));
    }
  }
}
