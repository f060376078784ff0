/** Appending keys to a newline-separated multi-key channel. */
module MultiKeyAppend {
  import opened ModelNames
  import opened MultiKeyRefinement
  import opened MultiKeySpec
  import opened Options
  import opened Sequences
  import opened Strings

  /** The requested keys that the channel lacks: trimmed, non-blank, each once, in request order. */
  function NewKeys(existing: seq<string>, request: string): seq<string> {
    Drop(Normalize(Split(request, '\n')), Elems(TrimNames(existing)))
  }

  /** The channel after an append request; an empty key field is simply replaced by the request. */
  function Appended(state: State, request: string): State {
    Committed(state, AppendedField(state, request), state.marks)
  }

  function AppendedField(state: State, request: string): string {
    if state.field == "" then request else Join(Keys(state) + NewKeys(Keys(state), request), '\n')
  }

  // ---- the loops of the code ----

  method TrimmedSet(keys: seq<string>) returns (seen: set<string>)
    ensures seen == Elems(TrimNames(keys))
  {
    seen := {};
    for i := 0 to |keys|
      invariant seen == Elems(TrimNames(keys[..i]))
    {
      assert keys[..i + 1] == keys[..i] + [keys[i]];
      TrimNamesAppend(keys[..i], keys[i]);
      var normalized := TrimSpace(keys[i]);
      if normalized != "" {
        seen := seen + {normalized};
      }
    }
    assert keys[..|keys|] == keys;
  }

  method RequestedKeys(request: string) returns (newKeys: seq<string>)
    ensures newKeys == TrimNames(Split(request, '\n'))
  {
    var inputKeys := Split(request, '\n');
    newKeys := [];
    for i := 0 to |inputKeys|
      invariant newKeys == TrimNames(inputKeys[..i])
    {
      assert inputKeys[..i + 1] == inputKeys[..i] + [inputKeys[i]];
      TrimNamesAppend(inputKeys[..i], inputKeys[i]);
      var key := TrimSpace(inputKeys[i]);
      if key != "" {
        newKeys := newKeys + [key];
      }
    }
    assert inputKeys[..|inputKeys|] == inputKeys;
  }

  lemma DeduplicateStep(front: seq<string>, key: string, known: set<string>)
    ensures var done, name := Drop(Normalize(front), known), TrimSpace(key);
      Drop(Normalize(front + [key]), known) == if name != "" && name !in known && name !in done then done + [name] else done
  {
    var names := Normalize(front);
    NormalizeAppend(front, key);
    DropAppend(names, TrimSpace(key), known);
    DropMembers(names, known);
    assert Drop(names, known) + [] == Drop(names, known);
  }

  method Deduplicate(newKeys: seq<string>, known: set<string>) returns (deduped: seq<string>)
    ensures deduped == Drop(Normalize(newKeys), known)
  {
    var seen := known;
    deduped := [];
    for i := 0 to |newKeys|
      invariant deduped == Drop(Normalize(newKeys[..i]), known)
      invariant seen == known + Elems(deduped)
    {
      assert newKeys[..i + 1] == newKeys[..i] + [newKeys[i]];
      DeduplicateStep(newKeys[..i], newKeys[i], known);
      var normalized := TrimSpace(newKeys[i]);
      if normalized != "" && normalized !in seen {
        ElemsAppend(deduped, normalized);
        seen := seen + {normalized};
        deduped := deduped + [normalized];
      }
    }
    assert newKeys[..|newKeys|] == newKeys;
  }

  /** The key list to store: the existing keys untouched, then the requested ones the channel lacks. */
  method AppendKeys(existing: seq<string>, request: string) returns (allKeys: seq<string>)
    ensures allKeys == existing + NewKeys(existing, request)
  {
    var newKeys := RequestedKeys(request);
    var seen := TrimmedSet(existing);
    var deduped := Deduplicate(newKeys, seen);
    TrimNamesTwice(Split(request, '\n'));
    allKeys := existing + deduped;
  }

  lemma {:induction false} TrimNamesTwice(names: seq<string>)
    ensures TrimNames(TrimNames(names)) == TrimNames(names)
  {
    if names != [] {
      var front, last := names[..|names| - 1], names[|names| - 1];
      TrimNamesTwice(front);
      if TrimSpace(last) != "" {
        TrimTwice(last, WHITESPACE);
        TrimNamesAppend(TrimNames(front), TrimSpace(last));
      }
    }
  }

  // ---- what an append does ----

  predicate Requested(lines: seq<string>, key: string) {
    key != "" && exists i :: 0 <= i < |lines| && TrimSpace(lines[i]) == key
  }

  /** Only trimmed keys that were requested and missing are added, each once; every requested key is then there. */
  lemma NewKeysMeaning(existing: seq<string>, request: string)
    ensures Clean(NewKeys(existing, request))
    ensures forall key ::
      key in NewKeys(existing, request) <==> Requested(Split(request, '\n'), key) && key !in TrimNames(existing)
  {
    var names := Normalize(Split(request, '\n'));
    NormalizeMeaning(Split(request, '\n'));
    DropMembers(names, Elems(TrimNames(existing)));
    KeepClean(names, Elems(names) - Elems(TrimNames(existing)));
    assert forall key :: key in names <==> Requested(Split(request, '\n'), key);
  }

  /** The new keys come in the order of their first lines in the request. */
  lemma NewKeysInOrder(existing: seq<string>, request: string, i: nat, j: nat)
    requires i < j < |NewKeys(existing, request)|
    ensures var added := NewKeys(existing, request);
      exists p: nat :: ComesFirst(Split(request, '\n'), p, added[i], added[j])
  {
    var names := Normalize(Split(request, '\n'));
    var a, b := KeepOrder(names, Elems(names) - Elems(TrimNames(existing)), i, j);
    NormalizeOrder(Split(request, '\n'), a, b);
  }

  lemma NewKeysSeparable(existing: seq<string>, request: string)
    ensures Separable(NewKeys(existing, request), '\n')
  {
    var lines, added := Split(request, '\n'), NewKeys(existing, request);
    NewKeysMeaning(existing, request);
    SplitParts(request, '\n');
    forall i | 0 <= i < |added| ensures '\n' !in added[i] {
      assert added[i] in added && Requested(lines, added[i]);
      var j :| 0 <= j < |lines| && TrimSpace(lines[j]) == added[i];
      TrimMeaning(lines[j], WHITESPACE);
    }
  }

  /** A field of nothing but newlines reads as one blank key, which the first real key replaces. */
  lemma AppendToBlank(added: seq<string>)
    requires Clean(added) && added != [] && Separable(added, '\n')
    ensures ReadList(Join([""] + added, '\n'), '\n') == added
  {
    var joined := Join(added, '\n');
    assert ([""] + added)[1..] == added;
    assert Join([""] + added, '\n') == ['\n'] + joined;
    ReadListRoundTrip(added, '\n');
    JoinEnds(added, '\n');
    assert (['\n'] + joined)[1..] == joined;
  }

  /** The keys of an append; each takes whatever marks its position has. */
  lemma AppendedKeys(state: State, request: string)
    ensures Records(Appended(state, request)) == RecordsOf(Keys(Appended(state, request)), state.marks)
    ensures var keys := Keys(state); var added := NewKeys(keys, request);
      Keys(Appended(state, request)) ==
        if keys == [] then ReadList(request, '\n')
        else if keys != [""] then keys + added
        else if added == [] then keys else added
  {
    var keys := Keys(state);
    var added := NewKeys(keys, request);
    ReadListShape(state.field, '\n');
    if keys != [] {
      CommitRecords(state, Join(keys + added, '\n'), state.marks);
      NewKeysMeaning(keys, request);
      NewKeysSeparable(keys, request);
      if added == [] {
        assert keys + added == keys;
        CommitSameKeys(state, state.marks);
      } else if keys != [""] {
        ReadListRoundTrip(keys + added, '\n');
        JoinEnds(keys + added, '\n');
      } else {
        AppendToBlank(added);
        JoinEnds(keys + added, '\n');
      }
    } else {
      CommitRecords(state, request, state.marks);
    }
  }

  /**
   * The existing keys stay an unchanged prefix, each with its own status, iff the channel held a real key
   * (or none at all) or nothing was added.
   */
  lemma AppendKeepsPrefixIff(state: State, request: string)
    ensures (|Records(state)| <= |Records(Appended(state, request))|
             && Records(Appended(state, request))[..|Records(state)|] == Records(state))
      <==> (Keys(state) != [""] || NewKeys(Keys(state), request) == [])
  {
    var keys := Keys(state);
    var added, next := NewKeys(keys, request), Appended(state, request);
    AppendedKeys(state, request);
    NewKeysMeaning(keys, request);
    if keys != [""] {
      assert forall i :: 0 <= i < |keys| ==> Records(next)[i] == Records(state)[i];
    } else if added != [] {
      assert Records(next)[0].key == added[0] && Records(state)[0].key == "";
    }
  }

  /** A record without any mark. */
  function Fresh(key: string): Record {
    Record(key, ENABLED, None, None)
  }

  function FreshRecords(keys: seq<string>): seq<Record> {
    seq(|keys|, i requires 0 <= i < |keys| => Fresh(keys[i]))
  }

  predicate Unmarked(marks: Marks, i: int) {
    StatusOf(marks, i) == ENABLED && i !in marks.time && i !in marks.reason
  }

  /** No position from `from` up to `to` has a mark. */
  predicate FreeFrom(marks: Marks, from: nat, to: nat) {
    forall i :: from <= i < to ==> Unmarked(marks, i)
  }

  /** An append is to add fresh records to the list, and it does iff no mark waits at their positions. */
  lemma AppendRefinesIff(state: State, request: string)
    requires Keys(state) != []
    ensures var keys := Keys(state); var added := NewKeys(keys, request);
      Records(Appended(state, request)) == Records(state) + FreshRecords(added)
      <==> (keys != [""] || added == []) && FreeFrom(state.marks, |keys|, |keys| + |added|)
  {
    var keys, marks := Keys(state), state.marks;
    var added := NewKeys(keys, request);
    AppendedKeys(state, request);
    if keys != [""] || added == [] {
      assert keys + [] == keys;
      FreshTailIff(keys, added, marks);
    }
  }

  lemma FreshTailIff(keys: seq<string>, added: seq<string>, marks: Marks)
    ensures RecordsOf(keys + added, marks) == RecordsOf(keys, marks) + FreshRecords(added)
      <==> FreeFrom(marks, |keys|, |keys| + |added|)
  {
    var all, want := RecordsOf(keys + added, marks), RecordsOf(keys, marks) + FreshRecords(added);
    if all == want {
      forall i | |keys| <= i < |keys| + |added| ensures Unmarked(marks, i) {
        assert all[i] == want[i] == Fresh(added[i - |keys|]);
      }
    } else if FreeFrom(marks, |keys|, |keys| + |added|) {
      forall i | 0 <= i < |all| ensures all[i] == want[i] {
        assert i >= |keys| ==> Unmarked(marks, i);
      }
    }
  }

  /** A channel without keys takes the request as it is, with no mark iff none waits there. */
  lemma FirstKeysFreshIff(keys: seq<string>, marks: Marks)
    ensures RecordsOf(keys, marks) == FreshRecords(keys) <==> FreeFrom(marks, 0, |keys|)
  {
    FreshTailIff([], keys, marks);
    assert [] + keys == keys && RecordsOf([], marks) + FreshRecords(keys) == FreshRecords(keys);
  }

  /** An appended key is enabled and unmarked iff no mark waits at its position. */
  lemma AppendedKeyFreshIff(state: State, request: string, j: int)
    requires Keys(state) != [] && Keys(state) != [""]
    requires 0 <= j < |NewKeys(Keys(state), request)|
    ensures var next, n := Appended(state, request), |Keys(state)|;
      n + j < |Records(next)|
      && (Records(next)[n + j] == Fresh(NewKeys(Keys(state), request)[j]) <==> Unmarked(state.marks, n + j))
  {
    AppendedKeys(state, request);
  }

  /** Aligned maps stay aligned with the keys. */
  lemma AppendKeepsAligned(state: State, request: string)
    requires Aligned(state)
    ensures Aligned(Appended(state, request))
  {
    AppendedKeys(state, request);
    CommitAlignedIff(state, AppendedField(state, request), state.marks);
    assert |Keys(Appended(state, request))| >= |Keys(state)|;
  }

  lemma NothingNewTwice(existing: seq<string>, request: string)
    ensures NewKeys(existing + NewKeys(existing, request), request) == []
  {
    var added := NewKeys(existing, request);
    var names := Normalize(Split(request, '\n'));
    NewKeysMeaning(existing, request);
    DropMembers(names, Elems(TrimNames(existing)));
    TrimNamesMembers(existing, added);
    DropAll(names, Elems(TrimNames(existing + added)));
  }

  lemma {:induction false} DropAll(names: seq<string>, removed: set<string>)
    requires forall x :: x in names ==> x in removed
    ensures Drop(names, removed) == []
  {
    if names != [] {
      var front, last := names[..|names| - 1], names[|names| - 1];
      assert names == front + [last];
      DropAll(front, removed);
      DropAppend(front, last, removed);
    }
  }

  lemma {:induction false} TrimNamesMembers(existing: seq<string>, added: seq<string>)
    requires Clean(added)
    ensures forall x :: x in TrimNames(existing) || x in added ==> x in TrimNames(existing + added)
  {
    if added == [] {
      assert existing + added == existing;
    } else {
      var front, last := added[..|added| - 1], added[|added| - 1];
      TrimNamesMembers(existing, front);
      TrimMeaning(last, WHITESPACE);
      assert existing + added == (existing + front) + [last];
      TrimNamesAppend(existing + front, last);
      assert added == front + [last];
    }
  }

  /** Nothing in a request is missing from the keys that the request itself reads as. */
  lemma NothingNewInItself(request: string)
    ensures NewKeys(ReadList(request, '\n'), request) == []
  {
    var lines, keys := Split(request, '\n'), ReadList(request, '\n');
    ReadListNames(request, '\n');
    UniqMeaning(TrimNames(lines));
    UniqMeaning(TrimNames(keys));
    DropAll(Normalize(lines), Elems(TrimNames(keys)));
  }

  /** Appending the same request again changes no key and no record. */
  lemma AppendTwice(state: State, request: string)
    ensures var once := Appended(state, request);
      Keys(Appended(once, request)) == Keys(once) && Records(Appended(once, request)) == Records(once)
  {
    var keys, once := Keys(state), Appended(state, request);
    AppendedKeys(state, request);
    if keys == [] {
      NothingNewInItself(request);
    } else if keys == [""] {
      assert TrimNames(keys) == [];
      NothingNewTwice([], request);
      assert NewKeys(keys, request) == NewKeys([], request);
      assert [] + NewKeys([], request) == NewKeys([], request);
    } else {
      NothingNewTwice(keys, request);
    }
    AppendNothing(once, request);
  }

  lemma AppendNothing(state: State, request: string)
    requires NewKeys(Keys(state), request) == []
    requires Keys(state) == [] ==> ReadList(request, '\n') == []
    ensures Keys(Appended(state, request)) == Keys(state) && Records(Appended(state, request)) == Records(state)
  {
    AppendedKeys(state, request);
    assert Keys(state) + [] == Keys(state);
  }
}
