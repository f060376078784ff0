/** Sizes of maps. */
module Maps {

  lemma OneKeyLess<K, V>(m: map<K, V>, k: K)
    requires k in m
    ensures |m| == |m - {k}| + 1
  {
    assert m.Keys == (m - {k}).Keys + {k};
    assert |m.Keys| == |m| && |(m - {k}).Keys| == |m - {k}|;
  }

  lemma FewerKeys<K, V>(a: map<K, V>, b: map<K, V>)
    requires a.Keys <= b.Keys
    ensures |a| <= |b|
    ensures |b.Keys - a.Keys| == |b| - |a|
    ensures |a| == |b| ==> a.Keys == b.Keys
  {
    assert b.Keys == a.Keys + (b.Keys - a.Keys);
    assert |a| == |a.Keys| && |b| == |b.Keys|;
  }

  /** Fewer keys, at least one of them missing. */
  lemma SomeKeyLess<K, V>(part: map<K, V>, whole: map<K, V>, missing: K)
    requires part.Keys <= whole.Keys && missing in whole && missing !in part
    ensures |part| < |whole|
  {
    FewerKeys(part, whole - {missing});
    OneKeyLess(whole, missing);
  }
}
