/** The sparse maps behave as a plain list of records, except in the cases spelt out here. */
module MultiKeyRefinement {
  import opened MultiKeySpec
  import opened Options
  import opened Sequences
  import opened Strings

  lemma CommitKeepsKeys(state: State, marks: Marks)
    ensures var next := Committed(state, state.field, marks);
      && Keys(next) == Keys(state) && next.size == |Keys(state)|
      && Records(next) == RecordsOf(Keys(state), marks)
  {
  }

  /** The records of any commit are the new keys with the given marks. */
  lemma CommitRecords(state: State, field: string, marks: Marks)
    ensures var next := Committed(state, field, marks);
      Records(next) == RecordsOf(Keys(next), marks) && next.size == |Keys(next)|
  {
  }

  /** A commit is aligned iff no mark lies outside the new keys (statuses past the end are dropped) or on an enabled one. */
  lemma CommitAlignedIff(state: State, field: string, marks: Marks)
    ensures var next := Committed(state, field, marks);
      Aligned(next) <==>
        && (forall i :: i in marks.status ==> 0 <= i)
        && (forall i :: i in marks.time || i in marks.reason ==> 0 <= i < |Keys(next)| && StatusOf(marks, i) != ENABLED)
  {
    var next := Committed(state, field, marks);
    forall i | 0 <= i < |Keys(next)| ensures StatusOf(next.marks, i) == StatusOf(marks, i) {
    }
    if Aligned(next) {
      forall i | i in marks.status ensures 0 <= i {
        if i < |Keys(next)| {
          assert i in next.marks.status;
        }
      }
    }
  }

  lemma CommitKeepsAligned(state: State, marks: Marks)
    requires Aligned(state) && InRange(marks, state.size) && OnlyOnDisabled(marks)
    ensures Aligned(Committed(state, state.field, marks))
  {
    assert (map i | i in marks.status && i < |Keys(state)| :: marks.status[i]) == marks.status;
  }

  // ---- marking keys ----

  /** The marks an action on marks alone leaves, if it is not refused. */
  function Marked(state: State, action: Action): Marks
    requires !action.DeleteKey? && !action.DeleteDisabled?
  {
    var marks := state.marks;
    match action
    case DisableKey(i) => marks.(status := marks.status[i := MANUALLY_DISABLED])
    case EnableKey(i) => Marks(marks.status - {i}, marks.time - {i}, marks.reason - {i})
    case EnableAll => NO_MARKS
    case DisableAll => marks.(status := AllDisabled(marks.status, state.size))
  }

  lemma DisableKeyRefines(state: State, i: int)
    requires Counted(state)
    ensures Records(KeyDisabled(state, i)) == Do(Records(state), DisableKey(i))
  {
    if 0 <= i < state.size {
      CommitKeepsKeys(state, Marked(state, DisableKey(i)));
    }
  }

  lemma EnableKeyRefines(state: State, i: int)
    requires Counted(state)
    ensures Records(KeyEnabled(state, i)) == Do(Records(state), EnableKey(i))
  {
    if 0 <= i < state.size {
      CommitKeepsKeys(state, Marked(state, EnableKey(i)));
    }
  }

  lemma DisableAllRefines(state: State)
    requires Counted(state)
    ensures Records(AllKeysDisabled(state)) == EachDisabled(Records(state))
  {
    if exists i :: 0 <= i < state.size && StatusOf(state.marks, i) == ENABLED {
      AllDisabledMeaning(state.marks.status, state.size);
      CommitKeepsKeys(state, Marked(state, DisableAll));
    }
  }

  lemma EnableAllRefines(state: State)
    ensures Records(Committed(state, state.field, NO_MARKS)) == EachEnabled(Records(state))
  {
    CommitKeepsKeys(state, NO_MARKS);
  }

  /** Disabling and enabling, one key or all of them, act on the records one by one. */
  lemma MarkingRefines(state: State, action: Action)
    requires Counted(state)
    requires !action.DeleteKey? && !action.DeleteDisabled?
    ensures Keys(Act(state, action)) == Keys(state)
    ensures Records(Act(state, action)) == Do(Records(state), action)
  {
    match action {
      case DisableKey(i) => DisableKeyRefines(state, i);
      case EnableKey(i) => EnableKeyRefines(state, i);
      case EnableAll => EnableAllRefines(state);
      case DisableAll => DisableAllRefines(state);
    }
  }

  lemma MarkingKeepsAligned(state: State, action: Action)
    requires Aligned(state)
    requires !action.DeleteKey? && !action.DeleteDisabled?
    ensures Aligned(Act(state, action))
  {
    if Act(state, action) != state {
      AllDisabledMeaning(state.marks.status, state.size);
      CommitKeepsAligned(state, Marked(state, action));
    }
  }

  // ---- deleting positions ----

  /** The ends of a key list survive being written as one newline-separated field and read again. */
  predicate CleanEnds(keys: seq<string>) {
    keys != [] && keys[0] != "" && keys[|keys| - 1] != ""
  }

  lemma RemainingKeysSeparable(field: string, allowed: set<int>)
    ensures Separable(RemainingKeys(ReadList(field, '\n'), allowed), '\n')
  {
    ReadListShape(field, '\n');
  }

  lemma {:induction false} ReindexedMeaning(marks: Marks, indices: seq<int>)
    ensures InRange(Reindexed(marks, indices), |indices|)
    ensures forall j, key :: 0 <= j < |indices| ==>
      RecordAt(key, Reindexed(marks, indices), j) == RecordAt(key, marks, indices[j])
  {
    if indices != [] {
      var n := |indices| - 1;
      ReindexedMeaning(marks, indices[..n]);
      forall j, key | 0 <= j <= n
        ensures RecordAt(key, Reindexed(marks, indices), j) == RecordAt(key, marks, indices[j])
      {
        if j < n {
          assert RecordAt(key, Reindexed(marks, indices[..n]), j) == RecordAt(key, marks, indices[..n][j]);
        }
      }
    }
  }

  lemma ReindexedRecords(keys: seq<string>, marks: Marks, allowed: set<int>)
    ensures var indices := Positions(|keys|, allowed); var next := Reindexed(marks, indices);
      && InRange(next, |indices|)
      && (OnlyOnDisabled(marks) ==> OnlyOnDisabled(next))
      && RecordsOf(RemainingKeys(keys, allowed), next) == Pick(RecordsOf(keys, marks), indices)
  {
    var indices := Positions(|keys|, allowed);
    var next := Reindexed(marks, indices);
    ReindexedMeaning(marks, indices);
    if OnlyOnDisabled(marks) {
      forall i | i in next.time || i in next.reason ensures StatusOf(next, i) != ENABLED {
        assert RecordAt("", next, i) == RecordAt("", marks, indices[i]);
      }
    }
    forall j | 0 <= j < |indices|
      ensures RecordAt(RemainingKeys(keys, allowed)[j], next, j) == RecordsOf(keys, marks)[indices[j]]
    {
    }
  }

  lemma SameRecordsSameKeys(keys: seq<string>, marks: Marks, keys': seq<string>, marks': Marks)
    requires RecordsOf(keys, marks) == RecordsOf(keys', marks')
    ensures keys == keys'
  {
    assert |keys| == |RecordsOf(keys, marks)| == |keys'|;
    forall i | 0 <= i < |keys| ensures keys[i] == keys'[i] {
      assert RecordsOf(keys, marks)[i].key == RecordsOf(keys', marks')[i].key;
    }
  }

  /** A key list with clean ends is the channel's new key list once committed as a field ... */
  lemma CommitReadsBack(state: State, keys: seq<string>, marks: Marks)
    requires Separable(keys, '\n') && InRange(marks, |keys|) && CleanEnds(keys)
    ensures Committed(state, Join(keys, '\n'), marks) == State(Join(keys, '\n'), |keys|, marks)
    ensures ReadList(Join(keys, '\n'), '\n') == keys
  {
    ReadListRoundTrip(keys, '\n');
    assert (map i | i in marks.status && i < |keys| :: marks.status[i]) == marks.status;
  }

  /** ... and a shorter list without clean ends never is. */
  lemma CommitGarbles(state: State, keys: seq<string>, marks: Marks)
    requires Separable(keys, '\n') && |keys| < |Keys(state)| && !CleanEnds(keys)
    ensures Keys(Committed(state, Join(keys, '\n'), marks)) != keys
  {
    ReadListRoundTrip(keys, '\n');
    if Join(keys, '\n') == "" {
      assert Committed(state, Join(keys, '\n'), marks).field == state.field;
    }
  }

  /** Writing the list that was read changes no key. */
  lemma CommitSameKeys(state: State, marks: Marks)
    ensures var next := Committed(state, Join(Keys(state), '\n'), marks);
      Keys(next) == Keys(state) && Records(next) == RecordsOf(Keys(state), marks)
  {
    ReadListShape(state.field, '\n');
    ReadListRoundTrip(Keys(state), '\n');
    var next := Committed(state, Join(Keys(state), '\n'), marks);
    assert Keys(next) == Keys(state);
  }

  /**
   * Deleting positions keeps exactly the other records, in order and with their marks, iff the remaining
   * keys have clean ends. Otherwise the field reads back as different keys, or was not written at all.
   */
  lemma DeletingRefinesIff(state: State, allowed: set<int>)
    requires |Positions(|Keys(state)|, allowed)| < |Keys(state)|
    ensures Records(Deleted(state, allowed)) == Pick(Records(state), Positions(|Keys(state)|, allowed))
      <==> CleanEnds(RemainingKeys(Keys(state), allowed))
    ensures CleanEnds(RemainingKeys(Keys(state), allowed)) && OnlyOnDisabled(state.marks) ==> Aligned(Deleted(state, allowed))
    ensures !CleanEnds(RemainingKeys(Keys(state), allowed)) ==>
      Keys(Deleted(state, allowed)) != RemainingKeys(Keys(state), allowed)
  {
    var keys, next := Keys(state), Deleted(state, allowed);
    var rest, marks := RemainingKeys(keys, allowed), Reindexed(state.marks, Positions(|keys|, allowed));
    RemainingKeysSeparable(state.field, allowed);
    ReindexedRecords(keys, state.marks, allowed);
    if CleanEnds(rest) {
      CommitReadsBack(state, rest, marks);
    } else {
      CommitGarbles(state, rest, marks);
      if Records(next) == RecordsOf(rest, marks) {
        SameRecordsSameKeys(Keys(next), next.marks, rest, marks);
      }
    }
  }

  // ---- deleting one key ----

  lemma PickConcat<T>(s: seq<T>, a: seq<int>, b: seq<int>)
    requires forall j :: 0 <= j < |a| ==> 0 <= a[j] < |s|
    requires forall j :: 0 <= j < |b| ==> 0 <= b[j] < |s|
    ensures Pick(s, a + b) == Pick(s, a) + Pick(s, b)
  {
  }

  /** r lists the positions of s. */
  lemma PickSlice<T>(s: seq<T>, r: seq<int>, from: nat, to: nat)
    requires |r| == |s| && forall j :: 0 <= j < |r| ==> r[j] == j
    requires from <= to <= |s|
    ensures Pick(s, r[from..to]) == s[from..to]
  {
    var p := Pick(s, r[from..to]);
    forall j | 0 <= j < |p| ensures p[j] == s[from..to][j] {
      assert r[from..to][j] == r[from + j];
    }
  }

  lemma PickSkipping<T>(s: seq<T>, r: seq<int>, i: nat, indices: seq<int>)
    requires |r| == |s| && forall j :: 0 <= j < |r| ==> r[j] == j
    requires i < |s| && indices == r[..i] + r[i + 1..]
    ensures forall j :: 0 <= j < |indices| ==> 0 <= indices[j] < |s|
    ensures Pick(s, indices) == s[..i] + s[i + 1..]
  {
    PickConcat(s, r[..i], r[i + 1..]);
    PickSlice(s, r, 0, i);
    PickSlice(s, r, i + 1, |s|);
    assert r[0..i] == r[..i] && r[i + 1..|s|] == r[i + 1..];
    assert s[0..i] == s[..i] && s[i + 1..|s|] == s[i + 1..];
  }

  lemma PickAllButOne(keys: seq<string>, marks: Marks, i: int)
    requires 0 <= i < |keys|
    ensures |Positions(|keys|, AllBut(|keys|, i))| == |keys| - 1
    ensures Pick(RecordsOf(keys, marks), Positions(|keys|, AllBut(|keys|, i)))
      == RecordsOf(keys, marks)[..i] + RecordsOf(keys, marks)[i + 1..]
    ensures RemainingKeys(keys, AllBut(|keys|, i)) == keys[..i] + keys[i + 1..]
  {
    DropOne(Range(|keys|), i);
    var indices := Positions(|keys|, AllBut(|keys|, i));
    assert indices == Range(|keys|)[..i] + Range(|keys|)[i + 1..];
    PickSkipping(keys, Range(|keys|), i, indices);
    PickSkipping(RecordsOf(keys, marks), Range(|keys|), i, indices);
  }

  /** The key that would become the first or the last one is blank. */
  predicate BlankMovesToAnEnd(keys: seq<string>, i: int)
    requires 0 <= i < |keys|
  {
    |keys| > 1 && ((i == 0 && keys[1] == "") || (i == |keys| - 1 && keys[i - 1] == ""))
  }

  /** Deleting one key refines the plain list iff no blank key becomes the first or the last one. */
  lemma DeleteKeyRefinesIff(state: State, i: int)
    requires Counted(state) && 0 <= i < |Keys(state)| && |Keys(state)| > 1
    ensures Records(KeyDeleted(state, i)) == Records(state)[..i] + Records(state)[i + 1..]
      <==> !BlankMovesToAnEnd(Keys(state), i)
    ensures !BlankMovesToAnEnd(Keys(state), i) && OnlyOnDisabled(state.marks) ==> Aligned(KeyDeleted(state, i))
  {
    var keys := Keys(state);
    var allowed := AllBut(|keys|, i);
    PickAllButOne(keys, state.marks, i);
    assert KeyDeleted(state, i) == Deleted(state, allowed);
    RemainingEnds(state.field, i);
    DeletingRefinesIff(state, allowed);
  }

  lemma RemainingEnds(field: string, i: int)
    requires var keys := ReadList(field, '\n'); 0 <= i < |keys| && |keys| > 1
    ensures var keys := ReadList(field, '\n');
      CleanEnds(keys[..i] + keys[i + 1..]) <==> !BlankMovesToAnEnd(keys, i)
  {
    ReadListShape(field, '\n');
  }

  /** The last key is never deleted. */
  lemma LastKeyStays(state: State, i: int)
    requires |Keys(state)| <= 1 && i < |Keys(state)|
    ensures KeyDeleted(state, i) == state
  {
    if 0 <= i < state.size {
      PickAllButOne(Keys(state), state.marks, i);
    }
  }

  /** An index past the keys, which a size counted too large lets through, deletes nothing. */
  lemma DeletePastEnd(state: State, i: int)
    requires i >= |Keys(state)|
    ensures Keys(KeyDeleted(state, i)) == Keys(state) && Records(KeyDeleted(state, i)) == Records(state)
  {
    var keys := Keys(state);
    var n := |keys|;
    if i < state.size && n > 0 {
      AllPositions(n, i);
      assert RemainingKeys(keys, AllBut(n, i)) == keys;
      assert Pick(Records(state), Range(n)) == Records(state);
      ReindexedRecords(keys, state.marks, AllBut(n, i));
      CommitSameKeys(state, Reindexed(state.marks, Range(n)));
    }
  }

  lemma AllPositions(n: nat, i: int)
    requires i >= n
    ensures Positions(n, AllBut(n, i)) == Range(n)
  {
    KeepAll(Range(n), AllBut(n, i));
  }

  // ---- deleting the automatically disabled keys ----

  lemma PickAppend(records: seq<Record>, indices: seq<int>, i: int)
    requires forall j :: 0 <= j < |indices| ==> 0 <= indices[j] < |records|
    requires 0 <= i < |records|
    ensures Pick(records, indices + [i]) == Pick(records, indices) + [records[i]]
  {
  }

  lemma SurvivorsStep(records: seq<Record>, n: nat)
    requires n < |records|
    ensures Survivors(records[..n + 1]) == Survivors(records[..n])
      + if records[n].status == AUTO_DISABLED then [] else [records[n]]
  {
    assert records[..n + 1][..n] == records[..n];
  }

  lemma {:induction false} SurvivorsPicked(records: seq<Record>, n: nat, allowed: set<int>)
    requires n <= |records|
    requires forall i :: 0 <= i < |records| ==> (i in allowed <==> records[i].status != AUTO_DISABLED)
    ensures Pick(records, Positions(n, allowed)) == Survivors(records[..n])
  {
    if n > 0 {
      SurvivorsPicked(records, n - 1, allowed);
      SurvivorsStep(records, n - 1);
      var r := Range(n);
      assert r[..n - 1] == Range(n - 1);
      if n - 1 in allowed {
        PickAppend(records, Positions(n - 1, allowed), n - 1);
      }
    }
  }

  lemma {:induction false} NothingDropped(records: seq<Record>)
    requires forall i :: 0 <= i < |records| ==> records[i].status != AUTO_DISABLED
    ensures Survivors(records) == records
  {
    if records != [] {
      NothingDropped(records[..|records| - 1]);
      assert records == records[..|records| - 1] + [records[|records| - 1]];
    }
  }

  ghost predicate NoneAutoDisabled(records: seq<Record>) {
    forall i :: 0 <= i < |records| ==> records[i].status != AUTO_DISABLED
  }

  lemma NothingToDelete(state: State)
    requires NoneAutoDisabled(Records(state))
    ensures DisabledDeleted(state) == state && Survivors(Records(state)) == Records(state)
  {
    NothingDropped(Records(state));
    assert forall i :: 0 <= i < |Keys(state)| ==> Records(state)[i].status == StatusOf(state.marks, i);
  }

  function KeysIn(records: seq<Record>): seq<string> {
    seq(|records|, i requires 0 <= i < |records| => records[i].key)
  }

  /** No enabled key has a time or a reason. */
  ghost predicate NoStaleMarks(records: seq<Record>) {
    forall i :: 0 <= i < |records| && records[i].status == ENABLED ==> records[i].time.None? && records[i].reason.None?
  }

  /** Nothing is to be deleted, or the keys that stay have non-blank ends and no mark would get lost. */
  ghost predicate DisabledDeletable(records: seq<Record>) {
    NoneAutoDisabled(records) || (CleanEnds(KeysIn(Survivors(records))) && NoStaleMarks(records))
  }

  lemma {:induction false} SurvivorsStale(records: seq<Record>)
    ensures NoStaleMarks(Survivors(records)) <==> NoStaleMarks(records)
  {
    if records != [] {
      var front, last := records[..|records| - 1], records[|records| - 1];
      SurvivorsStale(front);
      StaleAppend(front, last);
      StaleAppend(Survivors(front), last);
      assert records == front + [last];
    }
  }

  lemma StaleAppend(records: seq<Record>, last: Record)
    ensures NoStaleMarks(records + [last])
      <==> NoStaleMarks(records) && (last.status == ENABLED ==> last.time.None? && last.reason.None?)
  {
    var all := records + [last];
    assert all[|records|] == last && forall i :: 0 <= i < |records| ==> all[i] == records[i];
  }

  /** What stripping does to a list of records. */
  function Cleared(records: seq<Record>): seq<Record> {
    seq(|records|, i requires 0 <= i < |records| => if records[i].status == ENABLED then Enabled(records[i]) else records[i])
  }

  lemma StrippedRecords(keys: seq<string>, marks: Marks, indices: seq<int>)
    requires forall j :: 0 <= j < |indices| ==> 0 <= indices[j] < |keys|
    ensures Pick(RecordsOf(keys, Stripped(marks)), indices) == Cleared(Pick(RecordsOf(keys, marks), indices))
  {
  }

  lemma ClearedIff(records: seq<Record>)
    ensures Cleared(records) == records <==> NoStaleMarks(records)
  {
    if Cleared(records) == records {
      forall i | 0 <= i < |records| && records[i].status == ENABLED ensures records[i].time.None? && records[i].reason.None? {
        assert Cleared(records)[i] == records[i];
      }
    }
  }

  /**
   * Deleting the automatically disabled keys refines the plain list iff there is none to delete, or some
   * key stays, the keys that stay have clean ends and no enabled one has a time or reason to lose.
   */
  lemma DeleteDisabledRefinesIff(state: State)
    ensures Records(DisabledDeleted(state)) == Survivors(Records(state)) <==> DisabledDeletable(Records(state))
  {
    if NoneAutoDisabled(Records(state)) {
      NothingToDelete(state);
    } else {
      var i :| 0 <= i < |Keys(state)| && Records(state)[i].status == AUTO_DISABLED;
      DeletedSurvivors(state, i);
      SurvivorsStale(Records(state));
      ClearedIff(Survivors(Records(state)));
    }
  }

  lemma DisabledDeletedIs(state: State, i: int)
    requires 0 <= i < |Keys(state)| && Records(state)[i].status == AUTO_DISABLED
    ensures var n, stripped := |Keys(state)|, state.(marks := Stripped(state.marks));
      var allowed := NotAuto(n, state.marks);
      && DisabledDeleted(state) == Deleted(stripped, allowed) && |Positions(n, allowed)| < n
      && RemainingKeys(Keys(state), allowed) == KeysIn(Survivors(Records(state)))
      && Pick(Records(stripped), Positions(n, allowed)) == Cleared(Survivors(Records(state)))
  {
    var keys, n := Keys(state), |Keys(state)|;
    var allowed := NotAuto(n, state.marks);
    NotAutoMeaning(n, state.marks);
    assert StatusOf(state.marks, i) == AUTO_DISABLED;
    SomeDropped(n, allowed, i);
    PositionsSurvive(keys, state.marks);
    StrippedRecords(keys, state.marks, Positions(n, allowed));
  }

  lemma DeletedSurvivors(state: State, i: int)
    requires 0 <= i < |Keys(state)| && Records(state)[i].status == AUTO_DISABLED
    ensures var stay := Survivors(Records(state));
      && (CleanEnds(KeysIn(stay)) ==> Records(DisabledDeleted(state)) == Cleared(stay) && Aligned(DisabledDeleted(state)))
      && (!CleanEnds(KeysIn(stay)) ==> Records(DisabledDeleted(state)) != stay)
  {
    DisabledDeletedIs(state, i);
    DeletingRefinesIff(state.(marks := Stripped(state.marks)), NotAuto(|Keys(state)|, state.marks));
    KeysOfRecords(DisabledDeleted(state));
  }

  lemma KeysOfRecords(state: State)
    ensures KeysIn(Records(state)) == Keys(state)
  {
  }

  lemma PositionsSurvive(keys: seq<string>, marks: Marks)
    ensures Pick(RecordsOf(keys, marks), Positions(|keys|, NotAuto(|keys|, marks))) == Survivors(RecordsOf(keys, marks))
    ensures KeysIn(Survivors(RecordsOf(keys, marks))) == RemainingKeys(keys, NotAuto(|keys|, marks))
  {
    var n, records, allowed := |keys|, RecordsOf(keys, marks), NotAuto(|keys|, marks);
    NotAutoMeaning(n, marks);
    forall k | 0 <= k < n ensures k in allowed <==> records[k].status != AUTO_DISABLED {
    }
    SurvivorsPicked(records, n, allowed);
    assert records[..n] == records;
  }

  /** When every key was disabled automatically, deleting the disabled keys enables all of them instead. */
  lemma DeletingAllDisabledEnablesThem(state: State)
    requires Keys(state) != []
    requires forall i :: 0 <= i < |Keys(state)| ==> StatusOf(state.marks, i) == AUTO_DISABLED
    ensures Aligned(DisabledDeleted(state))
    ensures Records(DisabledDeleted(state)) == EachEnabled(Records(state))
  {
    var n := |Keys(state)|;
    assert StatusOf(state.marks, 0) == AUTO_DISABLED;
    NotAutoMeaning(n, state.marks);
    KeepEqualIff(Range(n), NotAuto(n, state.marks), {});
    KeepNone(Range(n));
    assert Reindexed(Stripped(state.marks), []) == NO_MARKS;
  }

  // ---- the plain list, record by record ----

  /** Disabling sets status 2 and keeps time and reason; enabling sets status 1 and clears both. */
  lemma MarkingMeaning(records: seq<Record>, i: int, j: int)
    requires 0 <= j < |records|
    ensures var r := records[j];
      && |Do(records, DisableKey(i))| == |Do(records, EnableKey(i))| == |records|
      && |Do(records, DisableAll)| == |Do(records, EnableAll)| == |records|
      && Do(records, DisableKey(i))[j] == (if i == j then Record(r.key, 2, r.time, r.reason) else r)
      && Do(records, EnableKey(i))[j] == (if i == j then Record(r.key, 1, None, None) else r)
      && Do(records, DisableAll)[j] == (if r.status == 1 then Record(r.key, 2, r.time, r.reason) else r)
      && Do(records, EnableAll)[j] == Record(r.key, 1, None, None)
  {
  }

  /** Deleting takes out one of several records, or every record of status 3, and keeps the others in order. */
  lemma {:induction false} DeletingMeaning(a: seq<Record>, r: Record, b: seq<Record>)
    ensures a + b != [] ==> Do(a + [r] + b, DeleteKey(|a|)) == a + b
    ensures Do([r], DeleteKey(0)) == [r]
    ensures Do(a + [r] + b, DeleteDisabled) ==
      Do(a, DeleteDisabled) + (if r.status == 3 then [] else [r]) + Do(b, DeleteDisabled)
  {
    var all := a + [r] + b;
    assert all[..|a|] == a && all[|a| + 1..] == b;
    SurvivorsConcat(a + [r], b);
    SurvivorsStep(a + [r], |a|);
    assert (a + [r])[..|a| + 1] == a + [r] && (a + [r])[..|a|] == a;
  }

  lemma {:induction false} SurvivorsConcat(a: seq<Record>, b: seq<Record>)
    ensures Survivors(a + b) == Survivors(a) + Survivors(b)
  {
    if b == [] {
      assert a + b == a;
    } else {
      var n := |b| - 1;
      SurvivorsConcat(a, b[..n]);
      assert (a + b)[..|a + b| - 1] == a + b[..n];
    }
  }

  // ---- every run ----

  /** What must hold of the plain list for an action on the channel to do to it what it does to the list. */
  ghost predicate Fits(records: seq<Record>, action: Action) {
    match action
    case DeleteKey(i) => 0 <= i < |records| ==> !BlankMovesToAnEnd(KeysIn(records), i)
    case DeleteDisabled => DisabledDeletable(records)
    case _ => true
  }

  lemma OneStepRefinesIff(state: State, action: Action)
    requires Counted(state)
    ensures Records(Act(state, action)) == Do(Records(state), action) <==> Fits(Records(state), action)
    ensures Counted(Act(state, action))
  {
    match action {
      case DeleteKey(i) => DeleteKeyStep(state, i);
      case DeleteDisabled => DeleteDisabledRefinesIff(state);
      case _ => MarkingRefines(state, action);
    }
  }

  lemma DeleteKeyStep(state: State, i: int)
    requires Counted(state)
    ensures Records(KeyDeleted(state, i)) == Do(Records(state), DeleteKey(i)) <==> Fits(Records(state), DeleteKey(i))
  {
    KeysOfRecords(state);
    if i >= |Keys(state)| {
      DeletePastEnd(state, i);
    } else if |Keys(state)| <= 1 {
      LastKeyStays(state, i);
    } else if 0 <= i {
      DeleteKeyRefinesIff(state, i);
    }
  }

  /** A fitting action keeps the maps aligned. */
  lemma FittingKeepsAligned(state: State, action: Action)
    requires Aligned(state) && Fits(Records(state), action)
    ensures Aligned(Act(state, action))
  {
    KeysOfRecords(state);
    match action {
      case DeleteKey(i) =>
        if |Keys(state)| <= 1 {
          if i < |Keys(state)| {
            LastKeyStays(state, i);
          }
        } else if 0 <= i < |Keys(state)| {
          DeleteKeyRefinesIff(state, i);
        }
      case DeleteDisabled =>
        if NoneAutoDisabled(Records(state)) {
          NothingToDelete(state);
        } else {
          var i :| 0 <= i < |Keys(state)| && Records(state)[i].status == AUTO_DISABLED;
          DeletedSurvivors(state, i);
        }
      case _ => MarkingKeepsAligned(state, action);
    }
  }

  function ActAll(state: State, actions: seq<Action>): State {
    if actions == [] then state
    else Act(ActAll(state, actions[..|actions| - 1]), actions[|actions| - 1])
  }

  function DoAll(records: seq<Record>, actions: seq<Action>): seq<Record> {
    if actions == [] then records
    else Do(DoAll(records, actions[..|actions| - 1]), actions[|actions| - 1])
  }

  /** So far, the channel has been the plain list. */
  ghost predicate RefinesUpTo(state: State, actions: seq<Action>, n: nat)
    requires n <= |actions|
  {
    Records(ActAll(state, actions[..n])) == DoAll(Records(state), actions[..n])
  }

  ghost predicate FitsAt(state: State, actions: seq<Action>, n: nat)
    requires n < |actions|
  {
    Fits(DoAll(Records(state), actions[..n]), actions[n])
  }

  lemma RunStep(state: State, actions: seq<Action>, n: nat)
    requires n < |actions|
    ensures ActAll(state, actions[..n + 1]) == Act(ActAll(state, actions[..n]), actions[n])
    ensures DoAll(Records(state), actions[..n + 1]) == Do(DoAll(Records(state), actions[..n]), actions[n])
  {
    assert actions[..n + 1][..n] == actions[..n];
  }

  lemma {:induction false} FittingRunRefines(state: State, actions: seq<Action>, n: nat)
    requires Counted(state) && n <= |actions|
    requires forall k :: 0 <= k < n ==> FitsAt(state, actions, k)
    ensures RefinesUpTo(state, actions, n) && Counted(ActAll(state, actions[..n]))
    ensures Aligned(state) ==> Aligned(ActAll(state, actions[..n]))
  {
    if n > 0 {
      FittingRunRefines(state, actions, n - 1);
      RunStep(state, actions, n - 1);
      assert FitsAt(state, actions, n - 1);
      var before := ActAll(state, actions[..n - 1]);
      OneStepRefinesIff(before, actions[n - 1]);
      if Aligned(state) {
        FittingKeepsAligned(before, actions[n - 1]);
      }
    }
  }

  /**
   * Every run of actions refines the plain list of records all along iff each action fits the list it
   * finds. Such a run keeps aligned maps aligned.
   */
  lemma EveryRunRefinesIff(state: State, actions: seq<Action>)
    requires Counted(state)
    ensures (forall n :: 0 <= n <= |actions| ==> RefinesUpTo(state, actions, n))
      <==> (forall n :: 0 <= n < |actions| ==> FitsAt(state, actions, n))
    ensures Aligned(state) && (forall n :: 0 <= n < |actions| ==> FitsAt(state, actions, n)) ==>
      Aligned(ActAll(state, actions))
  {
    if forall n :: 0 <= n < |actions| ==> FitsAt(state, actions, n) {
      forall n | 0 <= n <= |actions| ensures RefinesUpTo(state, actions, n) {
        FittingRunRefines(state, actions, n);
      }
      FittingRunRefines(state, actions, |actions|);
      assert actions[..|actions|] == actions;
    } else {
      var n := FirstMisfit(state, actions);
      FittingRunRefines(state, actions, n);
      RunStep(state, actions, n);
      OneStepRefinesIff(ActAll(state, actions[..n]), actions[n]);
      assert !RefinesUpTo(state, actions, n + 1);
    }
  }

  lemma FirstMisfit(state: State, actions: seq<Action>) returns (n: nat)
    requires exists k :: 0 <= k < |actions| && !FitsAt(state, actions, k)
    ensures n < |actions| && !FitsAt(state, actions, n)
    ensures forall k :: 0 <= k < n ==> FitsAt(state, actions, k)
  {
    n := 0;
    while FitsAt(state, actions, n)
      invariant n < |actions| && forall k :: 0 <= k < n ==> FitsAt(state, actions, k)
      decreases |actions| - n
    {
      n := n + 1;
    }
  }

  // ---- channels without blank keys ----

  ghost predicate NoBlankKeys(records: seq<Record>) {
    forall i :: 0 <= i < |records| ==> records[i].key != ""
  }

  lemma {:induction false} SurvivorsNoBlank(records: seq<Record>)
    requires NoBlankKeys(records)
    ensures NoBlankKeys(Survivors(records))
    ensures Survivors(records) == [] <==> forall i :: 0 <= i < |records| ==> records[i].status == AUTO_DISABLED
  {
    if records != [] {
      SurvivorsNoBlank(records[..|records| - 1]);
    }
  }

  /** Without blank keys the one misfit is to delete disabled keys when no other stays or a stale mark would go. */
  lemma OnlyMisfit(records: seq<Record>, action: Action)
    requires NoBlankKeys(records)
    ensures NoBlankKeys(Do(records, action))
    ensures Fits(records, action) <==> (action.DeleteDisabled? ==>
      NoneAutoDisabled(records)
      || (NoStaleMarks(records) && exists i :: 0 <= i < |records| && records[i].status != AUTO_DISABLED))
  {
    SurvivorsNoBlank(records);
  }

  lemma AlignedHasNoStaleMarks(state: State)
    requires Aligned(state)
    ensures NoStaleMarks(Records(state))
  {
  }

  /** Without blank keys every run, fitting or not, keeps the size and the maps aligned with the keys. */
  lemma {:induction false} EveryRunStaysAligned(state: State, actions: seq<Action>)
    requires Aligned(state) && NoBlankKeys(Records(state))
    ensures Aligned(ActAll(state, actions)) && NoBlankKeys(Records(ActAll(state, actions)))
  {
    if actions != [] {
      var n := |actions| - 1;
      EveryRunStaysAligned(state, actions[..n]);
      StepStaysAligned(ActAll(state, actions[..n]), actions[n]);
    }
  }

  lemma StepStaysAligned(state: State, action: Action)
    requires Aligned(state) && NoBlankKeys(Records(state))
    ensures Aligned(Act(state, action)) && NoBlankKeys(Records(Act(state, action)))
  {
    OnlyMisfit(Records(state), action);
    AlignedHasNoStaleMarks(state);
    OneStepRefinesIff(state, action);
    if Fits(Records(state), action) {
      FittingKeepsAligned(state, action);
    } else {
      AllDisabledMarks(state);
      DeletingAllDisabledEnablesThem(state);
    }
  }

  lemma AllDisabledMarks(state: State)
    requires forall i :: 0 <= i < |Records(state)| ==> Records(state)[i].status == AUTO_DISABLED
    ensures forall i :: 0 <= i < |Keys(state)| ==> StatusOf(state.marks, i) == AUTO_DISABLED
  {
    forall i | 0 <= i < |Keys(state)| ensures StatusOf(state.marks, i) == AUTO_DISABLED {
      assert Records(state)[i].status == StatusOf(state.marks, i);
    }
  }
}
