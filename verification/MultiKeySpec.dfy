/**
 * A multi-key channel: a newline-separated key field plus sparse maps, indexed by key position, for the
 * status of each key and, for disabled keys, the time and reason. Missing status means enabled.
 */
module MultiKeySpec {
  import opened Options
  import opened Sequences
  import opened Strings

  const ENABLED := 1
  const MANUALLY_DISABLED := 2
  const AUTO_DISABLED := 3

  datatype Marks = Marks(status: map<int, int>, time: map<int, int>, reason: map<int, string>)

  datatype State = State(field: string, size: int, marks: Marks)

  /** What the sparse maps stand for. */
  datatype Record = Record(key: string, status: int, time: Option<int>, reason: Option<string>)

  function Keys(state: State): seq<string> {
    ReadList(state.field, '\n')
  }

  function StatusOf(marks: Marks, i: int): int {
    if i in marks.status then marks.status[i] else ENABLED
  }

  function RecordAt(key: string, marks: Marks, i: int): Record {
    Record(key, StatusOf(marks, i),
           if i in marks.time then Some(marks.time[i]) else None,
           if i in marks.reason then Some(marks.reason[i]) else None)
  }

  function RecordsOf(keys: seq<string>, marks: Marks): seq<Record> {
    seq(|keys|, i requires 0 <= i < |keys| => RecordAt(keys[i], marks, i))
  }

  function Records(state: State): seq<Record> {
    RecordsOf(Keys(state), state.marks)
  }

  ghost predicate InRange(marks: Marks, size: int) {
    && (forall i :: i in marks.status ==> 0 <= i < size)
    && (forall i :: i in marks.time ==> 0 <= i < size)
    && (forall i :: i in marks.reason ==> 0 <= i < size)
  }

  ghost predicate OnlyOnDisabled(marks: Marks) {
    forall i :: i in marks.time || i in marks.reason ==> StatusOf(marks, i) != ENABLED
  }

  /** Every index is in range, the size is the key count, and only disabled keys have a time or a reason. */
  ghost predicate Aligned(state: State) {
    && state.size == |Keys(state)|
    && InRange(state.marks, state.size)
    && OnlyOnDisabled(state.marks)
  }

  /** The size may be too large, after creation, but never too small. */
  predicate Counted(state: State) {
    |Keys(state)| <= state.size
  }

  /**
   * Channel.Update: an empty key field keeps the stored one, the size is recounted from the field, and
   * statuses beyond it are dropped.
   */
  function Committed(state: State, field: string, marks: Marks): State {
    var kept := if field != "" then field else state.field;
    var size := |ReadList(kept, '\n')|;
    State(kept, size, marks.(status := map i | i in marks.status && i < size :: marks.status[i]))
  }

  /** The first n positions. */
  function Range(n: nat): (r: seq<int>)
    ensures |r| == n && forall i :: 0 <= i < n ==> r[i] == i
  {
    if n == 0 then [] else Range(n - 1) + [n - 1]
  }

  function Pick<T>(s: seq<T>, indices: seq<int>): seq<T>
    requires forall j :: 0 <= j < |indices| ==> 0 <= indices[j] < |s|
  {
    seq(|indices|, j requires 0 <= j < |indices| => s[indices[j]])
  }

  /** Copies what is recorded for position i to position `to`; a status saying "enabled" is not copied. */
  function CopyMarks(left: Marks, to: int, marks: Marks, i: int): Marks {
    Marks(
      if StatusOf(marks, i) != ENABLED then left.status[to := marks.status[i]] else left.status,
      if i in marks.time then left.time[to := marks.time[i]] else left.time,
      if i in marks.reason then left.reason[to := marks.reason[i]] else left.reason)
  }

  /** The maps after keeping only some positions, renumbered from zero. */
  function Reindexed(marks: Marks, indices: seq<int>): Marks {
    if indices == [] then Marks(map[], map[], map[])
    else
      var n := |indices| - 1;
      CopyMarks(Reindexed(marks, indices[..n]), n, marks, indices[n])
  }

  /** The marks without the times and reasons of enabled positions. */
  function Stripped(marks: Marks): Marks {
    Marks(marks.status,
          map i | i in marks.time && StatusOf(marks, i) != ENABLED :: marks.time[i],
          map i | i in marks.reason && StatusOf(marks, i) != ENABLED :: marks.reason[i])
  }

  lemma KeptInRange(n: nat, allowed: set<int>)
    ensures forall x :: x in Keep(Range(n), allowed) <==> 0 <= x < n && x in allowed
  {
    KeepMembers(Range(n), allowed);
    forall x | 0 <= x < n ensures x in Range(n) {
      assert Range(n)[x] == x;
    }
  }

  /** The allowed ones among the first n positions, in order. */
  function Positions(n: nat, allowed: set<int>): (indices: seq<int>)
    ensures forall j :: 0 <= j < |indices| ==> 0 <= indices[j] < n
  {
    KeptInRange(n, allowed);
    assert forall j :: 0 <= j < |Keep(Range(n), allowed)| ==> Keep(Range(n), allowed)[j] in Keep(Range(n), allowed);
    Keep(Range(n), allowed)
  }

  function RemainingKeys(keys: seq<string>, allowed: set<int>): seq<string> {
    Pick(keys, Positions(|keys|, allowed))
  }

  /** The channel with only the allowed key positions left. */
  function Deleted(state: State, allowed: set<int>): State {
    var keys := Keys(state);
    Committed(state, Join(RemainingKeys(keys, allowed), '\n'), Reindexed(state.marks, Positions(|keys|, allowed)))
  }

  function AllBut(n: nat, i: int): set<int> {
    Elems(Range(n)) - {i}
  }

  function NotAuto(n: nat, marks: Marks): set<int> {
    set i | i in Elems(Range(n)) && StatusOf(marks, i) != AUTO_DISABLED
  }

  lemma SomeDropped(n: nat, allowed: set<int>, i: int)
    requires 0 <= i < n && i !in allowed
    ensures |Positions(n, allowed)| < n
  {
    var kept := Positions(n, allowed);
    KeptInRange(n, allowed);
    KeepNoDuplicates(Range(n), allowed);
    NoDuplicatesSize(kept);
    NoDuplicatesSize(Range(n));
    forall x | x in Elems(kept) ensures x in Elems(Range(n)) - {i} {
      assert Range(n)[x] == x;
    }
    assert Range(n)[i] == i;
    SubsetSize(Elems(kept), Elems(Range(n)) - {i});
  }

  lemma NotAutoMeaning(n: nat, marks: Marks)
    ensures forall i :: i in NotAuto(n, marks) <==> 0 <= i < n && StatusOf(marks, i) != AUTO_DISABLED
  {
    KeptInRange(n, NotAuto(n, marks));
    forall i | 0 <= i < n ensures i in Elems(Range(n)) {
      assert Range(n)[i] == i;
    }
  }

  lemma AllPositionsKept(n: nat, marks: Marks)
    ensures |Positions(n, NotAuto(n, marks))| == n <==> forall i :: 0 <= i < n ==> StatusOf(marks, i) != AUTO_DISABLED
  {
    NotAutoMeaning(n, marks);
    if forall i :: 0 <= i < n ==> StatusOf(marks, i) != AUTO_DISABLED {
      KeepAll(Range(n), NotAuto(n, marks));
    } else {
      var i :| 0 <= i < n && StatusOf(marks, i) == AUTO_DISABLED;
      SomeDropped(n, NotAuto(n, marks), i);
    }
  }

  const NO_MARKS := Marks(map[], map[], map[])

  /** The lines that are not empty, each trimmed; a line of spaces becomes a blank key. */
  function CleanLines(lines: seq<string>): seq<string> {
    if lines == [] then []
    else
      var rest, last := CleanLines(lines[..|lines| - 1]), lines[|lines| - 1];
      if last == "" then rest else rest + [TrimSpace(last)]
  }

  /** A new multi-key channel: its size is the number of clean lines, not of the keys the field reads back as. */
  function Created(text: string): State {
    var keys := CleanLines(Split(text, '\n'));
    State(Join(keys, '\n'), |keys|, NO_MARKS)
  }

  datatype Action =
    | DisableKey(index: int)
    | EnableKey(index: int)
    | EnableAll
    | DisableAll
    | DeleteKey(index: int)
    | DeleteDisabled

  function KeyDisabled(state: State, i: int): State {
    if 0 <= i < state.size
    then Committed(state, state.field, state.marks.(status := state.marks.status[i := MANUALLY_DISABLED]))
    else state
  }

  function KeyEnabled(state: State, i: int): State {
    var marks := state.marks;
    if 0 <= i < state.size
    then Committed(state, state.field, Marks(marks.status - {i}, marks.time - {i}, marks.reason - {i}))
    else state
  }

  function AllKeysDisabled(state: State): State {
    if exists i :: 0 <= i < state.size && StatusOf(state.marks, i) == ENABLED
    then Committed(state, state.field, state.marks.(status := AllDisabled(state.marks.status, state.size)))
    else state
  }

  function KeyDeleted(state: State, i: int): State {
    var allowed := AllBut(|Keys(state)|, i);
    if 0 <= i < state.size && Positions(|Keys(state)|, allowed) != [] then Deleted(state, allowed) else state
  }

  function DisabledDeleted(state: State): State {
    if exists i :: 0 <= i < |Keys(state)| && StatusOf(state.marks, i) == AUTO_DISABLED
    then Deleted(state.(marks := Stripped(state.marks)), NotAuto(|Keys(state)|, state.marks)) else state
  }

  /** What each action makes of the stored channel; a refused action leaves it alone. */
  function Act(state: State, action: Action): State {
    match action
    case DisableKey(i) => KeyDisabled(state, i)
    case EnableKey(i) => KeyEnabled(state, i)
    case EnableAll => Committed(state, state.field, NO_MARKS)
    case DisableAll => AllKeysDisabled(state)
    case DeleteKey(i) => KeyDeleted(state, i)
    case DeleteDisabled => DisabledDeleted(state)
  }

  function AllDisabled(status: map<int, int>, size: int): map<int, int> {
    if size <= 0 then status
    else
      var rest := AllDisabled(status, size - 1);
      if size - 1 in status && status[size - 1] != ENABLED then rest else rest[size - 1 := MANUALLY_DISABLED]
  }

  lemma {:induction false} AllDisabledMeaning(status: map<int, int>, size: int)
    ensures var next := AllDisabled(status, size);
      && (forall i :: i in next <==> i in status || 0 <= i < size)
      && (forall i :: i in next ==>
        next[i] == if 0 <= i < size && (i !in status || status[i] == ENABLED) then MANUALLY_DISABLED else status[i])
  {
    if size > 0 {
      AllDisabledMeaning(status, size - 1);
    }
  }

  // ---- the plain list of records that the maps should behave as ----

  function Survivors(records: seq<Record>): seq<Record> {
    if records == [] then []
    else
      var rest, last := Survivors(records[..|records| - 1]), records[|records| - 1];
      if last.status == AUTO_DISABLED then rest else rest + [last]
  }

  function Enabled(record: Record): Record {
    Record(record.key, ENABLED, None, None)
  }

  function Disabled(record: Record): Record {
    if record.status == ENABLED then record.(status := MANUALLY_DISABLED) else record
  }

  function EachEnabled(records: seq<Record>): seq<Record> {
    seq(|records|, i requires 0 <= i < |records| => Enabled(records[i]))
  }

  function EachDisabled(records: seq<Record>): seq<Record> {
    seq(|records|, i requires 0 <= i < |records| => Disabled(records[i]))
  }

  function Do(records: seq<Record>, action: Action): seq<Record> {
    match action
    case DisableKey(i) =>
      if 0 <= i < |records| then records[i := records[i].(status := MANUALLY_DISABLED)] else records
    case EnableKey(i) => if 0 <= i < |records| then records[i := Enabled(records[i])] else records
    case EnableAll => EachEnabled(records)
    case DisableAll => EachDisabled(records)
    case DeleteKey(i) =>
      if 0 <= i < |records| && |records| > 1 then records[..i] + records[i + 1..] else records
    case DeleteDisabled => Survivors(records)
  }
}
