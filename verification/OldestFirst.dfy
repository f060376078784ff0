/** Listing the keys of a store by age, so that the oldest ones can be dropped. */
module OldestFirst {
  import opened Maps
  import opened Sorting

  datatype Aged = Aged(key: string, time: int)

  /** One element per key, with the key's time. */
  ghost predicate Lists(list: seq<Aged>, times: map<string, int>) {
    && |list| == |times|
    && (forall e :: e in list <==> e.key in times && e.time == times[e.key])
    && (forall i, j :: 0 <= i < j < |list| ==> list[i].key != list[j].key)
  }

  ghost predicate Ascends(list: seq<Aged>) {
    forall i, j :: 0 <= i < j < |list| ==> list[i].time <= list[j].time
  }

  ghost function KeysOf(list: seq<Aged>): set<string> {
    if list == [] then {} else KeysOf(list[..|list| - 1]) + {list[|list| - 1].key}
  }

  lemma {:induction false} KeysOfMeaning(list: seq<Aged>)
    ensures forall k :: k in KeysOf(list) <==> exists j :: 0 <= j < |list| && list[j].key == k
  {
    if list != [] {
      KeysOfMeaning(list[..|list| - 1]);
    }
  }

  method ByAge(unsorted: seq<Aged>, ghost times: map<string, int>) returns (list: seq<Aged>)
    requires Lists(unsorted, times)
    ensures Lists(list, times) && Ascends(list)
  {
    list := SortByKey(unsorted, (e: Aged) => e.time);
    PermutationFacts(unsorted, list);
    forall i, j | 0 <= i < j < |list| ensures list[i].key != list[j].key {
      assert list[i] in list && list[j] in list;
      assert list[i] != list[j];
    }
  }

  lemma PrefixGrows(list: seq<Aged>, times: map<string, int>, i: nat)
    requires i < |list| && Lists(list, times)
    ensures KeysOf(list[..i + 1]) == KeysOf(list[..i]) + {list[i].key}
    ensures list[i].key !in KeysOf(list[..i])
    ensures list[i].key in times
  {
    assert list[..i + 1][..i] == list[..i];
    KeysOfMeaning(list[..i]);
    assert list[i] in list;
  }

  /** Dropping a prefix of the ascending list never drops a key newer than one it keeps. */
  lemma OldestDropped(times: map<string, int>, list: seq<Aged>, i: nat, gone: string, kept: string)
    requires i <= |list| && Lists(list, times) && Ascends(list)
    requires gone in KeysOf(list[..i]) && kept in times && kept !in KeysOf(list[..i])
    ensures gone in times && times[gone] <= times[kept]
  {
    KeysOfMeaning(list[..i]);
    var a :| 0 <= a < i && list[..i][a].key == gone;
    var f := Aged(kept, times[kept]);
    assert list[a] in list && f in list;
    var b :| 0 <= b < |list| && list[b] == f;
    forall j | 0 <= j < i ensures list[j].key != kept {
      assert list[..i][j].key in KeysOf(list[..i]);
    }
  }

  method DropPrefix<V>(m: map<string, V>, list: seq<Aged>, target: nat, ghost times: map<string, int>)
    returns (left: map<string, V>, i: nat)
    requires m.Keys == times.Keys && Lists(list, times) && target <= |m|
    ensures i <= |list| && left == m - KeysOf(list[..i]) && |left| == target
  {
    left, i := m, 0;
    assert |m| == |m.Keys| == |times.Keys| == |times|;
    assert m - {} == m;
    while i < |list| && |left| > target
      invariant 0 <= i <= |list| && |left| == |list| - i >= target
      invariant left == m - KeysOf(list[..i])
    {
      PrefixGrows(list, times, i);
      OneKeyLess(left, list[i].key);
      left := left - {list[i].key};
      i := i + 1;
    }
  }

  /** Deletes keys along the ascending list until only `target` are left. */
  method DropOldest<V>(m: map<string, V>, list: seq<Aged>, target: nat, ghost times: map<string, int>)
    returns (left: map<string, V>)
    requires m.Keys == times.Keys && Lists(list, times) && Ascends(list) && target <= |m|
    ensures |left| == target
    ensures forall k :: k in left ==> k in m && left[k] == m[k]
    ensures forall gone, kept :: gone in m && gone !in left && kept in left ==> times[gone] <= times[kept]
  {
    var i;
    left, i := DropPrefix(m, list, target, times);
    forall gone, kept | gone in m && gone !in left && kept in left ensures times[gone] <= times[kept] {
      OldestDropped(times, list, i, gone, kept);
    }
  }
}
