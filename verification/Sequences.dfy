/** Facts about sequences used as ordered sets. */
module Sequences {

  function Elems<T(==)>(s: seq<T>): set<T> {
    set x | x in s
  }

  lemma ElemsAppend<T>(s: seq<T>, x: T)
    ensures Elems(s + [x]) == Elems(s) + {x}
  {
  }

  ghost predicate NoDuplicates<T>(s: seq<T>) {
    forall i, j :: 0 <= i < j < |s| ==> s[i] != s[j]
  }

  /** The elements of s that lie in `allowed`, in the order of s. */
  function Keep<T(==)>(s: seq<T>, allowed: set<T>): seq<T> {
    if s == [] then []
    else
      var rest := Keep(s[..|s| - 1], allowed);
      if s[|s| - 1] in allowed then rest + [s[|s| - 1]] else rest
  }

  lemma {:induction false} KeepMembers<T>(s: seq<T>, allowed: set<T>)
    ensures forall x :: x in Keep(s, allowed) <==> x in s && x in allowed
  {
    if s != [] {
      KeepMembers(s[..|s| - 1], allowed);
      assert s == s[..|s| - 1] + [s[|s| - 1]];
    }
  }

  lemma {:induction false} KeepIndex<T>(s: seq<T>, allowed: set<T>, i: nat) returns (p: nat)
    requires i < |Keep(s, allowed)|
    ensures p < |s| && s[p] == Keep(s, allowed)[i]
  {
    var front := s[..|s| - 1];
    if i < |Keep(front, allowed)| {
      p := KeepIndex(front, allowed, i);
    } else {
      p := |s| - 1;
    }
  }

  /** What is kept stays in order. */
  lemma {:induction false} KeepOrder<T>(s: seq<T>, allowed: set<T>, i: nat, j: nat) returns (p: nat, q: nat)
    requires i < j < |Keep(s, allowed)|
    ensures p < q < |s| && s[p] == Keep(s, allowed)[i] && s[q] == Keep(s, allowed)[j]
  {
    var front := s[..|s| - 1];
    if j < |Keep(front, allowed)| {
      p, q := KeepOrder(front, allowed, i, j);
    } else {
      p := KeepIndex(front, allowed, i);
      q := |s| - 1;
    }
  }

  lemma KeepElems<T>(s: seq<T>, allowed: set<T>)
    ensures forall x :: x in Keep(s, allowed) <==> x in s && x in allowed
    ensures Elems(Keep(s, allowed)) == Elems(s) * allowed
  {
    KeepMembers(s, allowed);
    var kept := Keep(s, allowed);
    assert Elems(kept) <= Elems(s) * allowed by {
      forall x | x in Elems(kept) ensures x in Elems(s) * allowed { assert x in kept; }
    }
    assert Elems(s) * allowed <= Elems(kept) by {
      forall x | x in Elems(s) * allowed ensures x in Elems(kept) { assert x in s; }
    }
  }

  lemma {:induction false} KeepNoDuplicates<T>(s: seq<T>, allowed: set<T>)
    requires NoDuplicates(s)
    ensures NoDuplicates(Keep(s, allowed))
  {
    if s != [] {
      var front, last := s[..|s| - 1], s[|s| - 1];
      KeepNoDuplicates(front, allowed);
      KeepMembers(front, allowed);
      assert last !in front;
      assert last !in Keep(front, allowed);
    }
  }

  /** Only the membership of the elements of s matters. */
  lemma {:induction false} KeepCongruence<T>(s: seq<T>, a: set<T>, b: set<T>)
    requires forall x :: x in s ==> (x in a <==> x in b)
    ensures Keep(s, a) == Keep(s, b)
  {
    if s != [] {
      assert forall x :: x in s[..|s| - 1] ==> x in s;
      KeepCongruence(s[..|s| - 1], a, b);
    }
  }

  lemma {:induction false} KeepAll<T>(s: seq<T>, a: set<T>)
    requires forall x :: x in s ==> x in a
    ensures Keep(s, a) == s
  {
    if s != [] {
      assert s == s[..|s| - 1] + [s[|s| - 1]];
      KeepAll(s[..|s| - 1], a);
    }
  }

  lemma {:induction false} KeepKeep<T>(s: seq<T>, a: set<T>, b: set<T>)
    ensures Keep(Keep(s, a), b) == Keep(s, a * b)
  {
    if s != [] {
      var front, last := s[..|s| - 1], s[|s| - 1];
      KeepKeep(front, a, b);
      if last in a {
        assert Keep(s, a)[..|Keep(s, a)| - 1] == Keep(front, a);
      }
    }
  }

  lemma {:induction false} KeepConcat<T>(s: seq<T>, t: seq<T>, a: set<T>)
    ensures Keep(s + t, a) == Keep(s, a) + Keep(t, a)
  {
    if t == [] {
      assert s + t == s;
    } else {
      assert (s + t)[..|s + t| - 1] == s + t[..|t| - 1];
      KeepConcat(s, t[..|t| - 1], a);
    }
  }

  lemma ConcatNoDuplicates<T>(s: seq<T>, t: seq<T>)
    requires NoDuplicates(s) && NoDuplicates(t)
    requires forall x :: x in s ==> x !in t
    ensures NoDuplicates(s + t)
  {
    forall i, j | 0 <= i < j < |s + t| ensures (s + t)[i] != (s + t)[j] {
      if i < |s| <= j {
        assert (s + t)[i] in s && (s + t)[j] in t;
      }
    }
  }

  lemma {:induction false} NoDuplicatesSize<T>(s: seq<T>)
    requires NoDuplicates(s)
    ensures |Elems(s)| == |s|
  {
    if s != [] {
      var front, last := s[..|s| - 1], s[|s| - 1];
      NoDuplicatesSize(front);
      assert Elems(s) == Elems(front) + {last};
    }
  }

  lemma SubsetSize<T>(a: set<T>, b: set<T>)
    requires a <= b
    ensures |a| <= |b|
    ensures |b - a| == |b| - |a|
  {
    assert b == a + (b - a);
  }

  /** The elements of s outside `removed`, in the order of s. */
  function Drop<T(==)>(s: seq<T>, removed: set<T>): seq<T> {
    Keep(s, Elems(s) - removed)
  }

  lemma DropAppend<T>(s: seq<T>, x: T, removed: set<T>)
    ensures Drop(s + [x], removed) == Drop(s, removed) + if x in removed then [] else [x]
  {
    assert (s + [x])[..|s + [x]| - 1] == s;
    assert x in s + [x];
    KeepCongruence(s, Elems(s) - removed, Elems(s + [x]) - removed);
  }

  lemma DropMembers<T>(s: seq<T>, removed: set<T>)
    ensures forall x :: x in Drop(s, removed) <==> x in s && x !in removed
  {
    KeepMembers(s, Elems(s) - removed);
  }

  lemma KeepEqualIff<T>(s: seq<T>, a: set<T>, b: set<T>)
    ensures Keep(s, a) == Keep(s, b) <==> forall x :: x in s ==> (x in a <==> x in b)
  {
    KeepMembers(s, a);
    KeepMembers(s, b);
    if forall x :: x in s ==> (x in a <==> x in b) {
      KeepCongruence(s, a, b);
    }
  }

  lemma DropOne<T>(s: seq<T>, i: nat)
    requires NoDuplicates(s) && i < |s|
    ensures Drop(s, {s[i]}) == s[..i] + s[i + 1..]
  {
    var a, x, b, kept := s[..i], s[i], s[i + 1..], Elems(s) - {s[i]};
    assert s == (a + [x]) + b;
    KeepConcat(a + [x], b, kept);
    KeepConcat(a, [x], kept);
    KeepAll(a, kept);
    KeepAll(b, kept);
    assert Keep([x], kept) == [];
  }

  lemma DropNone<T>(s: seq<T>, removed: set<T>)
    requires forall x :: x in s ==> x !in removed
    ensures Drop(s, removed) == s
  {
    KeepAll(s, Elems(s) - removed);
  }

  lemma {:induction false} KeepNone<T>(s: seq<T>)
    ensures Keep(s, {}) == []
  {
    if s != [] {
      KeepNone(s[..|s| - 1]);
    }
  }

  lemma NonEmptyHasMember<T>(s: seq<T>)
    ensures s != [] ==> exists x :: x in s
  {
    if s != [] {
      assert s[0] in s;
    }
  }
}
