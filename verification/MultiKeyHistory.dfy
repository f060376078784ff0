/**
 * The whole life of a multi-key channel: management actions, appended keys, replaced key lists and reports about
 * failing or working keys, in any order.
 */
module MultiKeyHistory {
  import opened ModelNames
  import opened MultiKeyAppend
  import opened MultiKeyCreation
  import opened MultiKeyRefinement
  import opened MultiKeyReports
  import opened MultiKeySpec
  import opened Options
  import opened Sequences
  import opened Strings

  datatype Edit =
    | Manage(action: Action)
    | Append(request: string)
    | Replace(text: string)
    | Relay(report: Report)

  /** Storing another key text; the marks stay with the positions, and an empty text is not written. */
  function Replaced(state: State, text: string): State {
    Committed(state, text, state.marks)
  }

  function Edited(state: State, edit: Edit): State {
    match edit
    case Manage(action) => Act(state, action)
    case Append(request) => Appended(state, request)
    case Replace(text) => Replaced(state, text)
    case Relay(report) => Reported(state, report)
  }

  // ---- the plain list of records ----

  /** Other keys at the same positions, keeping the marks there; positions that are new have none. */
  function Rekeyed(records: seq<Record>, keys: seq<string>): seq<Record> {
    seq(|keys|, i requires 0 <= i < |keys| => if i < |records| then records[i].(key := keys[i]) else Fresh(keys[i]))
  }

  function DoEdit(records: seq<Record>, edit: Edit): seq<Record> {
    match edit
    case Manage(action) => Do(records, action)
    case Append(request) =>
      if records == [] then FreshRecords(ReadList(request, '\n'))
      else records + FreshRecords(NewKeys(KeysIn(records), request))
    case Replace(text) => if text == "" then records else Rekeyed(records, ReadList(text, '\n'))
    case Relay(report) => DoReport(records, report)
  }

  // ---- when the channel follows the list ----

  /** What must hold of the channel for an edit to do to it what it does to the list of records. */
  ghost predicate EditFits(state: State, edit: Edit) {
    var keys := Keys(state);
    match edit
    case Manage(action) => Fits(Records(state), action)
    case Append(request) =>
      if keys == [] then FreeFrom(state.marks, 0, |ReadList(request, '\n')|)
      else
        var added := NewKeys(keys, request);
        (keys != [""] || added == []) && FreeFrom(state.marks, |keys|, |keys| + |added|)
    case Replace(text) => text != "" ==> FreeFrom(state.marks, |keys|, |ReadList(text, '\n')|)
    case Relay(report) => ReportFits(Records(state), report)
  }

  /** A replacement is to keep the marks of its positions, and does iff none waits past the old end. */
  lemma ReplaceRefinesIff(state: State, text: string)
    requires text != ""
    ensures Records(Replaced(state, text)) == Rekeyed(Records(state), ReadList(text, '\n'))
      <==> FreeFrom(state.marks, |Keys(state)|, |ReadList(text, '\n')|)
  {
    CommitRecords(state, text, state.marks);
    RekeyedIff(Keys(state), ReadList(text, '\n'), state.marks);
  }

  lemma RekeyedIff(old': seq<string>, keys: seq<string>, marks: Marks)
    ensures RecordsOf(keys, marks) == Rekeyed(RecordsOf(old', marks), keys) <==> FreeFrom(marks, |old'|, |keys|)
  {
    var all, want := RecordsOf(keys, marks), Rekeyed(RecordsOf(old', marks), keys);
    if all == want {
      forall i | |old'| <= i < |keys| ensures Unmarked(marks, i) {
        assert all[i] == want[i] == Fresh(keys[i]);
      }
    } else if FreeFrom(marks, |old'|, |keys|) {
      forall i | 0 <= i < |keys| ensures all[i] == want[i] {
        assert i >= |old'| ==> Unmarked(marks, i);
      }
    }
  }

  lemma EditRefinesIff(state: State, edit: Edit)
    requires Counted(state)
    ensures Records(Edited(state, edit)) == DoEdit(Records(state), edit) <==> EditFits(state, edit)
    ensures Counted(Edited(state, edit))
  {
    KeysOfRecords(state);
    match edit {
      case Manage(action) => OneStepRefinesIff(state, action);
      case Append(request) => AppendEditRefinesIff(state, request);
      case Replace(text) =>
        if text == "" {
          CommitKeepsKeys(state, state.marks);
        } else {
          ReplaceRefinesIff(state, text);
        }
      case Relay(report) => ReportRefinesIff(state, report);
    }
  }

  lemma AppendEditRefinesIff(state: State, request: string)
    ensures Records(Appended(state, request)) == DoEdit(Records(state), Append(request))
      <==> EditFits(state, Append(request))
  {
    KeysOfRecords(state);
    if Keys(state) == [] {
      AppendedKeys(state, request);
      FirstKeysFreshIff(ReadList(request, '\n'), state.marks);
    } else {
      AppendRefinesIff(state, request);
    }
  }

  // ---- every history ----

  function EditAll(state: State, edits: seq<Edit>): State {
    if edits == [] then state else Edited(EditAll(state, edits[..|edits| - 1]), edits[|edits| - 1])
  }

  function DoEdits(records: seq<Record>, edits: seq<Edit>): seq<Record> {
    if edits == [] then records else DoEdit(DoEdits(records, edits[..|edits| - 1]), edits[|edits| - 1])
  }

  /** So far, the channel has been the plain list. */
  ghost predicate FollowsUpTo(state: State, edits: seq<Edit>, n: nat)
    requires n <= |edits|
  {
    Records(EditAll(state, edits[..n])) == DoEdits(Records(state), edits[..n])
  }

  ghost predicate EditFitsAt(state: State, edits: seq<Edit>, n: nat)
    requires n < |edits|
  {
    EditFits(EditAll(state, edits[..n]), edits[n])
  }

  lemma HistoryStep(state: State, edits: seq<Edit>, n: nat)
    requires n < |edits|
    ensures EditAll(state, edits[..n + 1]) == Edited(EditAll(state, edits[..n]), edits[n])
    ensures DoEdits(Records(state), edits[..n + 1]) == DoEdit(DoEdits(Records(state), edits[..n]), edits[n])
  {
    assert edits[..n + 1][..n] == edits[..n];
  }

  lemma {:induction false} HistoryStaysCounted(state: State, edits: seq<Edit>, n: nat)
    requires Counted(state) && n <= |edits|
    ensures Counted(EditAll(state, edits[..n]))
  {
    if n > 0 {
      HistoryStaysCounted(state, edits, n - 1);
      HistoryStep(state, edits, n - 1);
      EditRefinesIff(EditAll(state, edits[..n - 1]), edits[n - 1]);
    }
  }

  lemma StepFollowsIff(state: State, edits: seq<Edit>, n: nat)
    requires Counted(state) && n < |edits| && FollowsUpTo(state, edits, n)
    ensures FollowsUpTo(state, edits, n + 1) <==> EditFitsAt(state, edits, n)
  {
    HistoryStaysCounted(state, edits, n);
    HistoryStep(state, edits, n);
    EditRefinesIff(EditAll(state, edits[..n]), edits[n]);
  }

  lemma {:induction false} FittingHistoryFollows(state: State, edits: seq<Edit>, n: nat)
    requires Counted(state) && n <= |edits|
    requires forall k :: 0 <= k < n ==> EditFitsAt(state, edits, k)
    ensures FollowsUpTo(state, edits, n)
  {
    if n > 0 {
      FittingHistoryFollows(state, edits, n - 1);
      StepFollowsIff(state, edits, n - 1);
    }
  }

  /**
   * From its creation on, through every history of actions, appends, replacements and reports, a channel is the
   * plain list of records all along iff each edit fits the channel it finds.
   */
  lemma EveryHistoryFollowsIff(text: string, edits: seq<Edit>)
    ensures var state := Created(text);
      (forall n :: 0 <= n <= |edits| ==> FollowsUpTo(state, edits, n))
      <==> (forall n :: 0 <= n < |edits| ==> EditFitsAt(state, edits, n))
  {
    var state := Created(text);
    CreatedCounted(text);
    if forall n :: 0 <= n <= |edits| ==> FollowsUpTo(state, edits, n) {
      forall n | 0 <= n < |edits| ensures EditFitsAt(state, edits, n) {
        assert FollowsUpTo(state, edits, n) && FollowsUpTo(state, edits, n + 1);
        StepFollowsIff(state, edits, n);
      }
    } else if forall n :: 0 <= n < |edits| ==> EditFitsAt(state, edits, n) {
      forall n | 0 <= n <= |edits| ensures FollowsUpTo(state, edits, n) {
        FittingHistoryFollows(state, edits, n);
      }
    }
  }

  // ---- statuses never wait past the end, times and reasons do ----

  lemma CommitStatuses(state: State, field: string, marks: Marks)
    requires forall i :: i in marks.status ==> 0 <= i && marks.status[i] != ENABLED
    ensures StatusesKept(Committed(state, field, marks))
  {
  }

  lemma {:induction false} ReindexedStatuses(marks: Marks, indices: seq<int>)
    ensures forall j :: j in Reindexed(marks, indices).status ==>
      0 <= j < |indices| && Reindexed(marks, indices).status[j] != ENABLED
  {
    if indices != [] {
      ReindexedStatuses(marks, indices[..|indices| - 1]);
    }
  }

  lemma DeletionKeepsStatuses(state: State, allowed: set<int>)
    ensures StatusesKept(Deleted(state, allowed))
  {
    var indices := Positions(|Keys(state)|, allowed);
    ReindexedStatuses(state.marks, indices);
    CommitStatuses(state, Join(RemainingKeys(Keys(state), allowed), '\n'), Reindexed(state.marks, indices));
  }

  lemma MarkingKeepsStatuses(state: State, action: Action)
    requires StatusesKept(state) && !action.DeleteKey? && !action.DeleteDisabled?
    ensures StatusesKept(Act(state, action))
  {
    if Act(state, action) != state {
      AllDisabledMeaning(state.marks.status, state.size);
      CommitStatuses(state, state.field, Marked(state, action));
    }
  }

  lemma ActKeepsStatuses(state: State, action: Action)
    requires StatusesKept(state)
    ensures StatusesKept(Act(state, action))
  {
    if action.DeleteKey? {
      DeletionKeepsStatuses(state, AllBut(|Keys(state)|, action.index));
    } else if action.DeleteDisabled? {
      DeletionKeepsStatuses(state.(marks := Stripped(state.marks)), NotAuto(|Keys(state)|, state.marks));
    } else {
      MarkingKeepsStatuses(state, action);
    }
  }

  lemma ReportKeepsStatuses(state: State, report: Report)
    requires StatusesKept(state)
    ensures StatusesKept(Reported(state, report))
  {
  }

  lemma EditKeepsStatuses(state: State, edit: Edit)
    requires StatusesKept(state)
    ensures StatusesKept(Edited(state, edit))
  {
    match edit {
      case Manage(action) => ActKeepsStatuses(state, action);
      case Append(request) => CommitStatuses(state, AppendedField(state, request), state.marks);
      case Replace(text) => CommitStatuses(state, text, state.marks);
      case Relay(report) => ReportKeepsStatuses(state, report);
    }
  }

  /** In every history the size covers the keys, and every status belongs to a key that is not enabled. */
  lemma {:induction false} EveryHistoryStaysCounted(text: string, edits: seq<Edit>)
    ensures var state := EditAll(Created(text), edits); Counted(state) && StatusesKept(state)
  {
    if edits == [] {
      CreatedCounted(text);
    } else {
      var front := edits[..|edits| - 1];
      EveryHistoryStaysCounted(text, front);
      EditRefinesIff(EditAll(Created(text), front), edits[|edits| - 1]);
      EditKeepsStatuses(EditAll(Created(text), front), edits[|edits| - 1]);
    }
  }

  /** So a whole channel is disabled after a report iff its size is right and all its keys are disabled. */
  lemma EveryHistoryDisablesIff(text: string, edits: seq<Edit>)
    requires Keys(EditAll(Created(text), edits)) != []
    ensures var state := EditAll(Created(text), edits);
      AllSeemDisabled(state) <==>
        state.size == |Keys(state)| && forall i :: 0 <= i < |Keys(state)| ==> StatusOf(state.marks, i) != ENABLED
  {
    EveryHistoryStaysCounted(text, edits);
    AllSeemDisabledIff(EditAll(Created(text), edits));
  }

  /** A replacement leaves aligned maps aligned iff no time or reason lies past the new end. */
  lemma ReplaceKeepsAlignedIff(state: State, text: string)
    requires Aligned(state)
    ensures Aligned(Replaced(state, text)) <==>
      forall i :: i in state.marks.time || i in state.marks.reason ==> i < |Keys(Replaced(state, text))|
  {
    CommitAlignedIff(state, text, state.marks);
  }

  // ---- inputs on which the list is not followed ----

  /** The third key fails; then two keys replace the three. Its time and reason stay behind. */
  lemma ReplacementLeavesTime(a: string, b: string, c: string, failed: Report)
    requires a != "" && b != "" && c != "" && '\n' !in a && '\n' !in b && '\n' !in c
    requires c != a && c != b && failed.key == c && failed.status != ENABLED
    ensures var state := Reported(State(Join([a, b, c], '\n'), 3, NO_MARKS), failed);
      && Aligned(state)
      && Replaced(state, Join([a, b], '\n'))
           == State(Join([a, b], '\n'), 2, Marks(map[], map[2 := failed.now], map[2 := failed.reason]))
      && !Aligned(Replaced(state, Join([a, b], '\n')))
  {
    ReadListRoundTrip([a, b, c], '\n');
    ReadListRoundTrip([a, b], '\n');
    JoinEnds([a, b], '\n');
    assert [a, b, c][2] == c && PositionOf([a, b, c], c) == 2;
    var marks := Marks(map[2 := failed.status], map[2 := failed.now], map[2 := failed.reason]);
    var state := State(Join([a, b, c], '\n'), 3, marks);
    assert Reported(State(Join([a, b, c], '\n'), 3, NO_MARKS), failed) == state;
    assert Keys(Replaced(state, Join([a, b], '\n'))) == [a, b];
    ReplaceKeepsAlignedIff(state, Join([a, b], '\n'));
    assert 2 in state.marks.time;
  }

  /** A key appended to what the replacement left takes over the time and the reason. */
  lemma StaleTimeComesBack(a: string, b: string, d: string, time: int, reason: string)
    requires a != "" && b != "" && d != "" && '\n' !in a && '\n' !in b && '\n' !in d
    requires TrimSpace(d) == d && TrimSpace(a) != d && TrimSpace(b) != d
    ensures var state := State(Join([a, b], '\n'), 2, Marks(map[], map[2 := time], map[2 := reason]));
      && Keys(Appended(state, d)) == [a, b, d]
      && Records(Appended(state, d))[2] == Record(d, ENABLED, Some(time), Some(reason))
      && !EditFits(state, Append(d))
  {
    var state := State(Join([a, b], '\n'), 2, Marks(map[], map[2 := time], map[2 := reason]));
    ReadListRoundTrip([a, b], '\n');
    OneNewKey([a, b], d);
    AppendedKeys(state, d);
    assert [a, b] + [d] == [a, b, d];
    assert !Unmarked(state.marks, 2);
  }

  lemma OneNewKey(keys: seq<string>, key: string)
    requires key != "" && '\n' !in key && TrimSpace(key) == key && forall i :: 0 <= i < |keys| ==> TrimSpace(keys[i]) != key
    ensures NewKeys(keys, key) == [key]
  {
    SplitAfterJoin([key], '\n');
    TrimMeaning(key, WHITESPACE);
    NormalizeClean([key]);
    TrimNamesMeaning(keys);
    DropNone([key], Elems(TrimNames(keys)));
  }

  /** One key fails and works again; then the other fails. The first keeps its old time and reason. */
  lemma ReportsLeaveTime(a: string, b: string, off: Report, on: Report, other: Report)
    requires a != "" && b != "" && '\n' !in a && '\n' !in b && a != b
    requires off.key == a && on.key == a && other.key == b
    requires off.status != ENABLED && on.status == ENABLED && other.status == AUTO_DISABLED
    ensures var start := State(Join([a, b], '\n'), 2, NO_MARKS);
      Reported(Reported(Reported(start, off), on), other) == TwoKeys(a, b, off, other)
      && !ReportFits(Records(Reported(start, off)), on)
  {
    var start := State(Join([a, b], '\n'), 2, NO_MARKS);
    ReadListRoundTrip([a, b], '\n');
    assert PositionOf([a, b], a) == 0 && PositionOf([a, b], b) == 1;
    ReportedRecords(start, off);
    KeysOfRecords(Reported(start, off));
  }

  function TwoKeys(a: string, b: string, off: Report, other: Report): State {
    State(Join([a, b], '\n'), 2,
      Marks(map[1 := AUTO_DISABLED], map[0 := off.now, 1 := other.now], map[0 := off.reason, 1 := other.reason]))
  }

  /** Deleting the failed key then takes that time and reason away from the enabled one. */
  lemma StaleTimeGetsLost(a: string, b: string, off: Report, other: Report)
    requires a != "" && b != "" && '\n' !in a && '\n' !in b
    ensures var state := TwoKeys(a, b, off, other);
      && Survivors(Records(state)) == [Record(a, ENABLED, Some(off.now), Some(off.reason))]
      && Records(DisabledDeleted(state)) == [Record(a, ENABLED, None, None)]
      && !Fits(Records(state), DeleteDisabled)
  {
    var state := TwoKeys(a, b, off, other);
    ReadListRoundTrip([a, b], '\n');
    var first := Record(a, ENABLED, Some(off.now), Some(off.reason));
    var second := Record(b, AUTO_DISABLED, Some(other.now), Some(other.reason));
    assert Records(state) == [first, second];
    OneSurvivor(first, second);
    DeletedSurvivors(state, 1);
    assert Cleared([first]) == [Enabled(first)];
  }

  lemma OneSurvivor(first: Record, second: Record)
    requires first.status == ENABLED && first.time.Some? && second.status == AUTO_DISABLED
    ensures Survivors([first, second]) == [first] && KeysIn([first]) == [first.key]
    ensures !NoStaleMarks([first, second]) && !NoneAutoDisabled([first, second])
  {
    var records := [first, second];
    SurvivorsStep(records, 0);
    SurvivorsStep(records, 1);
    assert records[..0] == [] && records[..1] == [first] && records[..2] == records;
    assert records[0].status == ENABLED && records[1].status == AUTO_DISABLED;
  }
}
