/** The order of Go strings, and sorting sets of them. */
module StringOrder {
  import opened Sequences

  predicate Less(a: string, b: string) {
    b != "" && (a == "" || a[0] < b[0] || (a[0] == b[0] && Less(a[1..], b[1..])))
  }

  lemma {:induction false} LessIrreflexive(a: string)
    ensures !Less(a, a)
  {
    if a != "" {
      LessIrreflexive(a[1..]);
    }
  }

  lemma {:induction false} LessTransitive(a: string, b: string, c: string)
    requires Less(a, b) && Less(b, c)
    ensures Less(a, c)
  {
    if a != "" && a[0] == b[0] == c[0] {
      LessTransitive(a[1..], b[1..], c[1..]);
    }
  }

  lemma {:induction false} LessTotal(a: string, b: string)
    ensures a == b || Less(a, b) || Less(b, a)
  {
    if a != "" && b != "" && a[0] == b[0] {
      LessTotal(a[1..], b[1..]);
      assert a == [a[0]] + a[1..] && b == [b[0]] + b[1..];
    }
  }

  /** At place k, where a ends or has the smaller character, the strings part. */
  predicate PartAt(a: string, b: string, k: nat) {
    k <= |a| && k < |b| && a[..k] == b[..k] && (k == |a| || a[k] < b[k])
  }

  /** Strings are compared character by character, and a prefix comes first. */
  lemma {:induction false} LessMeaning(a: string, b: string)
    ensures Less(a, b) <==> exists k: nat :: PartAt(a, b, k)
  {
    if b != "" {
      if a == "" || a[0] < b[0] {
        assert PartAt(a, b, 0);
      } else {
        LessMeaning(a[1..], b[1..]);
        if a[0] == b[0] {
          if k: nat :| PartAt(a[1..], b[1..], k) {
            assert a[..k + 1] == [a[0]] + a[1..][..k] && b[..k + 1] == [b[0]] + b[1..][..k];
            assert PartAt(a, b, k + 1);
          }
          if k: nat :| PartAt(a, b, k) {
            assert k > 0;
            assert a[1..][..k - 1] == a[..k][1..] && b[1..][..k - 1] == b[..k][1..];
            assert PartAt(a[1..], b[1..], k - 1);
          }
        } else {
          forall k: nat ensures !PartAt(a, b, k) {
            if 0 < k <= |a| && k < |b| {
              assert a[..k][0] == a[0] && b[..k][0] == b[0];
            }
          }
        }
      }
    }
  }

  ghost predicate Ascending(s: seq<string>) {
    forall i, j :: 0 <= i < j < |s| ==> Less(s[i], s[j])
  }

  function Insert(s: seq<string>, x: string): seq<string> {
    if s == [] || Less(s[|s| - 1], x) then s + [x]
    else Insert(s[..|s| - 1], x) + [s[|s| - 1]]
  }

  lemma {:induction false} InsertMeaning(s: seq<string>, x: string)
    requires Ascending(s) && x !in s
    ensures Ascending(Insert(s, x))
    ensures forall y :: y in Insert(s, x) <==> y in s || y == x
  {
    if s != [] {
      var front, last := s[..|s| - 1], s[|s| - 1];
      assert s == front + [last];
      LessTotal(last, x);
      if Less(last, x) {
        forall i | 0 <= i < |s| ensures Less(s[i], x) {
          if i < |front| {
            LessTransitive(s[i], last, x);
          }
        }
      } else {
        InsertMeaning(front, x);
        var rest := Insert(front, x);
        forall i | 0 <= i < |rest| ensures Less(rest[i], last) {
          assert rest[i] in rest;
        }
      }
    }
  }

  lemma InsertElems(s: seq<string>, x: string)
    requires Ascending(s) && x !in s
    ensures Elems(Insert(s, x)) == Elems(s) + {x}
  {
    InsertMeaning(s, x);
    var t := Insert(s, x);
    assert Elems(t) <= Elems(s) + {x} by {
      forall y | y in Elems(t) ensures y in Elems(s) + {x} { assert y in t; }
    }
    assert Elems(s) + {x} <= Elems(t) by {
      forall y | y in Elems(s) + {x} ensures y in Elems(t) { assert y in t; }
    }
  }

  /** sort.Strings over the keys of a map: ascending, each key once. */
  method SortedKeys(keys: set<string>) returns (sorted: seq<string>)
    ensures Ascending(sorted) && Elems(sorted) == keys
  {
    sorted := [];
    var todo := keys;
    while todo != {}
      invariant todo <= keys && Ascending(sorted) && Elems(sorted) == keys - todo
    {
      var key :| key in todo;
      assert key !in Elems(sorted);
      InsertMeaning(sorted, key);
      InsertElems(sorted, key);
      sorted := Insert(sorted, key);
      todo := todo - {key};
    }
  }

  lemma SameLast(a: seq<string>, b: seq<string>)
    requires Ascending(a) && Ascending(b) && a != [] && b != []
    requires forall x :: x in a <==> x in b
    ensures a[|a| - 1] == b[|b| - 1]
  {
    var x, y := a[|a| - 1], b[|b| - 1];
    assert x in a && y in b;
    var i :| 0 <= i < |b| && b[i] == x;
    var j :| 0 <= j < |a| && a[j] == y;
    LessIrreflexive(x);
    if Less(x, y) && Less(y, x) {
      LessTransitive(x, y, x);
    }
  }

  /** There is only one ascending list of a set of strings. */
  lemma {:induction false} AscendingUnique(a: seq<string>, b: seq<string>)
    requires Ascending(a) && Ascending(b)
    requires forall x :: x in a <==> x in b
    ensures a == b
  {
    NonEmptyHasMember(a);
    NonEmptyHasMember(b);
    if a != [] {
      SameLast(a, b);
      FrontMembers(a);
      FrontMembers(b);
      var front, front' := a[..|a| - 1], b[..|b| - 1];
      assert a == front + [a[|a| - 1]] && b == front' + [b[|b| - 1]];
      forall z ensures z in front <==> z in front' {
        assert z in a <==> z in b;
      }
      AscendingUnique(front, front');
    }
  }

  lemma FrontMembers(a: seq<string>)
    requires Ascending(a) && a != []
    ensures forall z :: z in a[..|a| - 1] <==> z in a && z != a[|a| - 1]
  {
    var front, last := a[..|a| - 1], a[|a| - 1];
    assert a == front + [last];
    LessIrreflexive(last);
    assert last !in front;
  }
}
