/** Ordered-set algebra on model names: normalize, merge, subtract, intersect, apply a selection. */
module ModelNames {
  import opened Sequences
  import opened Strings

  /** lo.FilterMap with TrimSpace: the trimmed names, without the blank ones. */
  function TrimNames(models: seq<string>): seq<string> {
    if models == [] then []
    else
      var rest, name := TrimNames(models[..|models| - 1]), TrimSpace(models[|models| - 1]);
      if name != "" then rest + [name] else rest
  }

  /** lo.Uniq: the first occurrence of every element. */
  function Uniq(names: seq<string>): seq<string> {
    if names == [] then []
    else
      var rest, name := Uniq(names[..|names| - 1]), names[|names| - 1];
      if name in rest then rest else rest + [name]
  }

  function Normalize(models: seq<string>): seq<string> {
    Uniq(TrimNames(models))
  }

  ghost predicate Clean(names: seq<string>) {
    && NoDuplicates(names)
    && forall i :: 0 <= i < |names| ==> names[i] != "" && Trimmed(names[i], WHITESPACE)
  }

  function Subtract(base: seq<string>, removed: seq<string>): seq<string> {
    var names := Normalize(base);
    Drop(names, Elems(Normalize(removed)))
  }

  function Intersect(base: seq<string>, allowed: seq<string>): seq<string> {
    Keep(Normalize(base), Elems(Normalize(allowed)))
  }

  function Merge(base: seq<string>, appended: seq<string>): seq<string> {
    var names, extra := Normalize(base), Normalize(appended);
    names + Drop(extra, Elems(names))
  }

  /** An addition wins over a removal of the same name. */
  function ApplySelected(origin: seq<string>, add: seq<string>, remove: seq<string>): seq<string> {
    var adding := Normalize(add);
    var removing := Subtract(Normalize(remove), adding);
    Subtract(Merge(origin, adding), removing)
  }

  // ---- what normalizing means ----

  lemma {:induction false} TrimNamesMeaning(models: seq<string>)
    ensures forall x :: x in TrimNames(models) <==> x != "" && exists i :: 0 <= i < |models| && TrimSpace(models[i]) == x
  {
    if models != [] {
      var front := models[..|models| - 1];
      TrimNamesMeaning(front);
      forall x ensures x in TrimNames(models) <==> x != "" && exists i :: 0 <= i < |models| && TrimSpace(models[i]) == x {
        if i :| 0 <= i < |front| && TrimSpace(front[i]) == x {
          assert models[i] == front[i];
        }
        if i :| 0 <= i < |models| && TrimSpace(models[i]) == x {
          assert i < |front| ==> front[i] == models[i];
        }
      }
    }
  }

  lemma {:induction false} UniqMeaning(names: seq<string>)
    ensures NoDuplicates(Uniq(names))
    ensures forall x :: x in Uniq(names) <==> x in names
  {
    if names != [] {
      UniqMeaning(names[..|names| - 1]);
      assert names == names[..|names| - 1] + [names[|names| - 1]];
    }
  }

  /** Normalizing keeps exactly the trimmed, non-blank names, once each. */
  lemma NormalizeMeaning(models: seq<string>)
    ensures Clean(Normalize(models))
    ensures forall x :: x in Normalize(models) <==> x != "" && exists i :: 0 <= i < |models| && TrimSpace(models[i]) == x
  {
    TrimNamesMeaning(models);
    UniqMeaning(TrimNames(models));
    var names := Normalize(models);
    forall i | 0 <= i < |names| ensures names[i] != "" && Trimmed(names[i], WHITESPACE) {
      assert names[i] in names;
      var j :| 0 <= j < |models| && TrimSpace(models[j]) == names[i];
      TrimMeaning(models[j], WHITESPACE);
    }
  }

  lemma {:induction false} NormalizeClean(names: seq<string>)
    requires Clean(names)
    ensures Normalize(names) == names
  {
    if names != [] {
      var front, last := names[..|names| - 1], names[|names| - 1];
      NormalizeClean(front);
      TrimMeaning(last, WHITESPACE);
      TrimNamesAppend(front, last);
      assert front + [last] == names;
      assert last !in front;
    }
  }

  lemma TrimNamesAppend(front: seq<string>, last: string)
    ensures TrimNames(front + [last]) == TrimNames(front) + if TrimSpace(last) != "" then [TrimSpace(last)] else []
  {
    assert (front + [last])[..|front + [last]| - 1] == front;
  }

  /** The normal forms are exactly the clean lists. */
  lemma NormalizeFixedPoints(names: seq<string>)
    ensures Normalize(names) == names <==> Clean(names)
  {
    NormalizeMeaning(names);
    if Clean(names) {
      NormalizeClean(names);
    }
  }

  lemma KeepClean(names: seq<string>, allowed: set<string>)
    requires Clean(names)
    ensures Clean(Keep(names, allowed)) && Normalize(Keep(names, allowed)) == Keep(names, allowed)
  {
    var kept := Keep(names, allowed);
    KeepNoDuplicates(names, allowed);
    KeepMembers(names, allowed);
    forall i | 0 <= i < |kept| ensures kept[i] != "" && Trimmed(kept[i], WHITESPACE) {
      assert kept[i] in kept;
    }
    NormalizeClean(kept);
  }

  lemma SubtractMeaning(base: seq<string>, removed: seq<string>)
    ensures Clean(Subtract(base, removed))
    ensures Elems(Subtract(base, removed)) == Elems(Normalize(base)) - Elems(Normalize(removed))
    ensures forall x :: x in Subtract(base, removed) <==> x in Normalize(base) && x !in Normalize(removed)
  {
    var names := Normalize(base);
    NormalizeMeaning(base);
    KeepClean(names, Elems(names) - Elems(Normalize(removed)));
    KeepElems(names, Elems(names) - Elems(Normalize(removed)));
  }

  lemma IntersectMeaning(base: seq<string>, allowed: seq<string>)
    ensures Clean(Intersect(base, allowed))
    ensures forall x :: x in Intersect(base, allowed) <==> x in Normalize(base) && x in Normalize(allowed)
  {
    NormalizeMeaning(base);
    KeepClean(Normalize(base), Elems(Normalize(allowed)));
    KeepElems(Normalize(base), Elems(Normalize(allowed)));
  }

  lemma MergeMeaning(base: seq<string>, appended: seq<string>)
    ensures Clean(Merge(base, appended))
    ensures forall x :: x in Merge(base, appended) <==> x in Normalize(base) || x in Normalize(appended)
    ensures Normalize(base) <= Merge(base, appended)
  {
    var names, extra := Normalize(base), Normalize(appended);
    NormalizeMeaning(base);
    NormalizeMeaning(appended);
    var kept := Drop(extra, Elems(names));
    KeepElems(extra, Elems(extra) - Elems(names));
    KeepClean(extra, Elems(extra) - Elems(names));
    ConcatNoDuplicates(names, kept);
    forall i | 0 <= i < |names + kept| ensures (names + kept)[i] != "" && Trimmed((names + kept)[i], WHITESPACE) {
    }
  }

  lemma MergeMembers(a: seq<string>, b: seq<string>)
    ensures forall x :: x in Merge(a, b) <==> x in Normalize(a) || x in Normalize(b)
  {
    DropMembers(Normalize(b), Elems(Normalize(a)));
  }

  lemma MergeAppend(a: seq<string>, front: seq<string>, last: string)
    ensures Merge(a, front + [last]) ==
      if TrimSpace(last) == "" || TrimSpace(last) in Merge(a, front) then Merge(a, front)
      else Merge(a, front) + [TrimSpace(last)]
  {
    var names, extra, name := Normalize(a), Normalize(front), TrimSpace(last);
    NormalizeAppend(front, last);
    MergeMembers(a, front);
    if name != "" && name !in extra {
      var kept := Drop(extra, Elems(names));
      DropAppend(extra, name, Elems(names));
      if name in names {
        assert kept + [] == kept;
      } else {
        assert names + (kept + [name]) == (names + kept) + [name];
      }
    }
  }

  lemma {:induction false} NormalizeConcat(a: seq<string>, b: seq<string>)
    ensures Normalize(a + b) == Merge(a, b)
  {
    if b == [] {
      assert a + b == a;
    } else {
      var front, last := b[..|b| - 1], b[|b| - 1];
      NormalizeConcat(a, front);
      assert a + b == (a + front) + [last];
      assert b == front + [last];
      NormalizeAppend(a + front, last);
      MergeAppend(a, front, last);
    }
  }

  lemma NormalizeAppend(front: seq<string>, last: string)
    ensures Normalize(front + [last]) ==
      if TrimSpace(last) == "" || TrimSpace(last) in Normalize(front) then Normalize(front)
      else Normalize(front) + [TrimSpace(last)]
  {
    TrimNamesAppend(front, last);
    var names := TrimNames(front);
    if TrimSpace(last) != "" {
      assert (names + [TrimSpace(last)])[..|names|] == names;
    } else {
      assert names + [] == names;
    }
  }

  /** The entry at p is this name, and none up to p is the other one. */
  predicate ComesFirst(models: seq<string>, p: nat, name: string, other: string) {
    p < |models| && TrimSpace(models[p]) == name && forall q :: 0 <= q <= p ==> TrimSpace(models[q]) != other
  }

  /** Names keep the order in which they first occur. */
  lemma {:induction false} NormalizeOrder(models: seq<string>, i: nat, j: nat)
    requires i < j < |Normalize(models)|
    ensures exists p: nat :: ComesFirst(models, p, Normalize(models)[i], Normalize(models)[j])
  {
    var front, last := models[..|models| - 1], models[|models| - 1];
    assert models == front + [last];
    NormalizeAppend(front, last);
    NormalizeMeaning(front);
    var names, next := Normalize(front), Normalize(models);
    assert next[i] == names[i] && names[i] in names;
    if j < |names| {
      NormalizeOrder(front, i, j);
      var p: nat :| ComesFirst(front, p, names[i], names[j]);
      assert ComesFirst(models, p, next[i], next[j]) by {
        assert forall q :: 0 <= q <= p ==> front[q] == models[q];
      }
    } else {
      var p: nat :| p < |front| && TrimSpace(front[p]) == names[i];
      assert next[j] == TrimSpace(last) && next[j] !in names && next[j] != "";
      assert ComesFirst(models, p, next[i], next[j]) by {
        assert forall q :: 0 <= q <= p ==> front[q] == models[q];
      }
    }
  }

  // ---- reading a stored list back ----

  lemma BlankBefore(names: seq<string>)
    ensures Normalize([""] + names) == Normalize(names)
  {
    NormalizeConcat([""], names);
    assert TrimSpace("") == "";
    NormalizeAppend([], "");
    assert [] + [""] == [""];
    assert Normalize([""]) == [] && Elems(Normalize([""])) == {};
    DropNone(Normalize(names), {});
    assert [] + Normalize(names) == Normalize(names);
  }

  lemma {:induction false} TrimLeftNames(field: string, sep: char)
    ensures Normalize(Split(TrimLeft(field, {sep}), sep)) == Normalize(Split(field, sep))
  {
    if field != "" && field[0] == sep {
      TrimLeftNames(field[1..], sep);
      BlankBefore(Split(field[1..], sep));
    }
  }

  lemma {:induction false} TrimRightNames(field: string, sep: char)
    ensures Normalize(Split(TrimRight(field, {sep}), sep)) == Normalize(Split(field, sep))
  {
    if field != "" && field[|field| - 1] == sep {
      var front := field[..|field| - 1];
      TrimRightNames(front, sep);
      assert field == front + [sep] + "";
      SplitAround(front, "", sep);
      NormalizeAppend(Split(front, sep), "");
    }
  }

  /** Separators at the ends of a field make no names. */
  lemma ReadListNames(field: string, sep: char)
    ensures Normalize(ReadList(field, sep)) == Normalize(Split(field, sep))
  {
    if field == "" {
      NormalizeAppend([], "");
      assert [] + [""] == [""] && TrimSpace("") == "";
    } else {
      TrimLeftNames(field, sep);
      TrimRightNames(TrimLeft(field, {sep}), sep);
    }
  }

  /** What joining the list `kept + added` and reading it back makes of the added names. */
  function NewNames(kept: seq<string>, added: seq<string>, sep: char): seq<string> {
    Drop(Normalize(Pieces(added, sep)), Elems(kept))
  }

  lemma JoinedNames(kept: seq<string>, added: seq<string>, sep: char)
    requires Clean(kept) && Separable(kept, sep)
    ensures Normalize(ReadList(Join(kept + added, sep), sep)) == kept + NewNames(kept, added, sep)
  {
    var all := kept + added;
    ReadListNames(Join(all, sep), sep);
    PiecesConcat(kept, added, sep);
    PiecesSeparable(kept, sep);
    NormalizeConcat(kept, Pieces(added, sep));
    NormalizeClean(kept);
    if all == [] {
      NormalizeAppend([], "");
      assert [] + [""] == [""] && TrimSpace("") == "";
    } else {
      SplitOfJoin(all, sep);
    }
  }

  /** Names without separators come back as they are. */
  lemma NewNamesSeparable(kept: seq<string>, added: seq<string>, sep: char)
    requires Clean(added) && Separable(added, sep) && forall x :: x in added ==> x !in kept
    ensures NewNames(kept, added, sep) == added
  {
    PiecesSeparable(added, sep);
    NormalizeClean(added);
    DropNone(added, Elems(kept));
  }

  // ---- what a selection does ----

  /**
   * Applying a selection leaves, as a set, the original names without the removed ones, plus the added
   * ones; the surviving original names come first, then the new ones, each in their own order.
   */
  lemma ApplySelectedMeaning(origin: seq<string>, add: seq<string>, remove: seq<string>)
    ensures var next := ApplySelected(origin, add, remove);
      && Clean(next)
      && (forall x :: x in next <==> (x in Normalize(origin) && x !in Normalize(remove)) || x in Normalize(add))
      && next == ApplySelectedOrdered(origin, add, remove)
  {
    var adding := Normalize(add);
    NormalizeMeaning(origin);
    NormalizeMeaning(add);
    NormalizeMeaning(remove);
    NormalizeClean(adding);
    NormalizeClean(Normalize(remove));
    var removing := Subtract(Normalize(remove), adding);
    SubtractMeaning(Normalize(remove), adding);
    NormalizeClean(removing);
    var merged := Merge(origin, adding);
    MergeMeaning(origin, adding);
    NormalizeClean(merged);
    SubtractMeaning(merged, removing);
    var extra := Keep(adding, Elems(adding) - Elems(Normalize(origin)));
    var kept := Elems(merged) - Elems(removing);
    KeepConcat(Normalize(origin), extra, kept);
    KeepElems(adding, Elems(adding) - Elems(Normalize(origin)));
    KeepCongruence(Normalize(origin), kept, Elems(Normalize(origin)) - (Elems(Normalize(remove)) - Elems(adding)));
    KeepAll(extra, kept);
  }

  function ApplySelectedOrdered(origin: seq<string>, add: seq<string>, remove: seq<string>): seq<string> {
    var names, adding := Elems(Normalize(origin)), Elems(Normalize(add));
    Keep(Normalize(origin), names - (Elems(Normalize(remove)) - adding)) + Keep(Normalize(add), adding - names)
  }

  // ---- the loops of the code ----

  method SetOf(names: seq<string>) returns (s: set<string>)
    ensures s == Elems(names)
  {
    s := {};
    for i := 0 to |names|
      invariant s == Elems(names[..i])
    {
      assert names[..i + 1] == names[..i] + [names[i]];
      s := s + {names[i]};
    }
    assert names[..|names|] == names;
  }

  /** Merging is normalizing the concatenation: nothing is reordered, nothing appears twice. */
  method MergeModelNames(base: seq<string>, appended: seq<string>) returns (merged: seq<string>)
    ensures merged == Normalize(base + appended) == Merge(base, appended)
  {
    merged := Normalize(base);
    var seen := SetOf(merged);
    var extra := Normalize(appended);
    ghost var names := merged;
    assert merged == names + [];
    for i := 0 to |extra|
      invariant merged == names + Drop(extra[..i], Elems(names))
      invariant seen == Elems(merged)
    {
      assert extra[..i + 1] == extra[..i] + [extra[i]];
      DropAppend(extra[..i], extra[i], Elems(names));
      DropMembers(extra[..i], Elems(names));
      NormalizeMeaning(appended);
      if extra[i] !in seen {
        seen := seen + {extra[i]};
        merged := merged + [extra[i]];
      }
    }
    assert extra[..|extra|] == extra;
    NormalizeConcat(base, appended);
  }
}
