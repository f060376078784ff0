/** The stored multi-key channel and the management actions on it, each under the channel's own lock. */
module MultiKeyChannel {
  import opened MultiKeyAppend
  import opened MultiKeyHistory
  import opened MultiKeyReports
  import opened MultiKeySpec
  import opened Options
  import opened Sequences
  import opened Strings

  datatype Reply =
    | Changed(count: int)
    | NoIndexGiven
    | IndexOutOfRange
    | LastKey
    | NothingToDo
    | Failed

  /** Which writes of an update succeed: the channel row, then the index of its abilities. */
  datatype Writes = Writes(row: bool, index: bool) {
    predicate All() {
      row && index
    }
  }

  class Channel {
    var key: string
    var size: nat
    var statusList: map<int, int>
    var disabledTime: map<int, int>
    var disabledReason: map<int, string>

    ghost function View(): State
      reads this
    {
      State(key, size, Marks(statusList, disabledTime, disabledReason))
    }

    /** A channel as the database holds it; nothing says that its size fits its keys. */
    constructor (key: string, size: nat, marks: Marks)
      ensures View() == State(key, size, marks)
    {
      this.key, this.size := key, size;
      statusList, disabledTime, disabledReason := marks.status, marks.time, marks.reason;
    }

    /** A new channel for the keys of a text. */
    constructor Create(text: string)
      ensures View() == Created(text)
    {
      var lines := Split(text, '\n');
      var keys: seq<string> := [];
      for i := 0 to |lines|
        invariant keys == CleanLines(lines[..i])
      {
        assert lines[..i + 1][..i] == lines[..i];
        if lines[i] != "" {
          keys := keys + [TrimSpace(lines[i])];
        }
      }
      assert lines[..|lines|] == lines;
      key, size := Join(keys, '\n'), |keys|;
      statusList, disabledTime, disabledReason := map[], map[], map[];
    }

    /** The one list of lines that makes up the field without the newlines at its ends. */
    method GetKeys() returns (keys: seq<string>)
      ensures keys == Keys(View())
      ensures key == "" <==> keys == []
      ensures key != "" ==> Separable(keys, '\n') && Join(keys, '\n') == Trim(key, {'\n'})
    {
      keys := ReadList(key, '\n');
      ReadListShape(key, '\n');
      JoinAfterSplit(Trim(key, {'\n'}), '\n');
    }

    /**
     * Recounts the keys, drops statuses past the end and writes the row; an empty key column is not written.
     * When the index cannot be written the update fails although the row has changed.
     */
    method Update(newKey: string, marks: Marks, works: Writes) returns (ok: bool)
      modifies this
      ensures ok == works.All()
      ensures View() == if works.row then Committed(old(View()), newKey, marks) else old(View())
    {
      var kept := if newKey != "" then newKey else key;
      var keys := ReadList(kept, '\n');
      var statuses := DropPastEnd(marks.status, |keys|);
      if !works.row {
        return false;
      }
      key, size := kept, |keys|;
      statusList, disabledTime, disabledReason := statuses, marks.time, marks.reason;
      return works.index;
    }

    /** An edit of the channel that appends keys. */
    method AddKeys(request: string, works: Writes) returns (ok: bool)
      modifies this
      ensures ok == works.All()
      ensures View() == if works.row then Edited(old(View()), Append(request)) else old(View())
    {
      var newKey := request;
      if key != "" {
        var existing := GetKeys();
        var allKeys := AppendKeys(existing, request);
        newKey := Join(allKeys, '\n');
      }
      ok := Update(newKey, Marks(statusList, disabledTime, disabledReason), works);
    }

    /** An edit of the channel that replaces its keys and leaves the maps as they are. */
    method ReplaceKeys(text: string, works: Writes) returns (ok: bool)
      modifies this
      ensures ok == works.All()
      ensures View() == if works.row then Edited(old(View()), Replace(text)) else old(View())
    {
      ok := Update(text, Marks(statusList, disabledTime, disabledReason), works);
    }

    /** A key failed or works again; tells whether the whole channel is to be disabled. */
    method HandleReport(report: Report, saveWorks: bool) returns (allDisabled: bool)
      modifies this
      ensures View() == if saveWorks then Edited(old(View()), Relay(report)) else old(View())
      ensures allDisabled <==> AllSeemDisabled(Edited(old(View()), Relay(report)))
    {
      var keys := GetKeys();
      if |keys| == 0 {
        return false;
      }
      var keyIndex := FindKey(keys, report.key);
      var status, time, reason := statusList, disabledTime, disabledReason;
      if report.status == ENABLED {
        status := status - {keyIndex};
      } else {
        status, time, reason :=
          status[keyIndex := report.status], time[keyIndex := report.now], reason[keyIndex := report.reason];
      }
      allDisabled := |status| >= size;
      if saveWorks {
        statusList, disabledTime, disabledReason := status, time, reason;
      }
    }

    method DisableKey(keyIndex: Option<int>, works: Writes) returns (reply: Reply)
      modifies this
      ensures reply == (if keyIndex.None? then NoIndexGiven
                        else if !(0 <= keyIndex.value < old(size)) then IndexOutOfRange
                        else if works.All() then Changed(1) else Failed)
      ensures View() == if (reply.Changed? || reply.Failed?) && works.row
        then Act(old(View()), Action.DisableKey(keyIndex.value)) else old(View())
    {
      if keyIndex.None? {
        return NoIndexGiven;
      }
      var i := keyIndex.value;
      if i < 0 || i >= size {
        return IndexOutOfRange;
      }
      var ok := Update(key, Marks(statusList[i := MANUALLY_DISABLED], disabledTime, disabledReason), works);
      return if ok then Changed(1) else Failed;
    }

    method EnableKey(keyIndex: Option<int>, works: Writes) returns (reply: Reply)
      modifies this
      ensures reply == (if keyIndex.None? then NoIndexGiven
                        else if !(0 <= keyIndex.value < old(size)) then IndexOutOfRange
                        else if works.All() then Changed(1) else Failed)
      ensures View() == if (reply.Changed? || reply.Failed?) && works.row
        then Act(old(View()), Action.EnableKey(keyIndex.value)) else old(View())
    {
      if keyIndex.None? {
        return NoIndexGiven;
      }
      var i := keyIndex.value;
      if i < 0 || i >= size {
        return IndexOutOfRange;
      }
      var ok := Update(key, Marks(statusList - {i}, disabledTime - {i}, disabledReason - {i}), works);
      return if ok then Changed(1) else Failed;
    }

    method EnableAllKeys(works: Writes) returns (reply: Reply)
      modifies this
      ensures reply == if works.All() then Changed(|old(statusList)|) else Failed
      ensures View() == if works.row then Act(old(View()), EnableAll) else old(View())
    {
      var enabledCount := |statusList|;
      var ok := Update(key, NO_MARKS, works);
      return if ok then Changed(enabledCount) else Failed;
    }

    method DisableAllKeys(works: Writes) returns (reply: Reply)
      modifies this
      ensures reply == (if forall i :: 0 <= i < old(size) ==> StatusOf(old(View()).marks, i) != ENABLED then NothingToDo
                        else if works.All() then Changed(|EnabledAmong(old(statusList), old(size))|) else Failed)
      ensures View() == if works.row then Act(old(View()), DisableAll) else old(View())
    {
      var statuses, disabledCount := DisableEnabled(statusList, size);
      NoneEnabled(View().marks, size);
      if disabledCount == 0 {
        return NothingToDo;
      }
      var ok := Update(key, Marks(statuses, disabledTime, disabledReason), works);
      return if ok then Changed(disabledCount) else Failed;
    }

    method DeleteKey(keyIndex: Option<int>, works: Writes) returns (reply: Reply)
      modifies this
      ensures var keys := Keys(old(View()));
        reply == (if keyIndex.None? then NoIndexGiven
                  else if !(0 <= keyIndex.value < old(size)) then IndexOutOfRange
                  else if keys == [] || (|keys| == 1 && keyIndex.value == 0) then LastKey
                  else if works.All() then Changed(1) else Failed)
      ensures View() == if (reply.Changed? || reply.Failed?) && works.row
        then Act(old(View()), Action.DeleteKey(keyIndex.value)) else old(View())
    {
      if keyIndex.None? {
        return NoIndexGiven;
      }
      var index := keyIndex.value;
      if index < 0 || index >= size {
        return IndexOutOfRange;
      }
      var keys := GetKeys();
      var remaining, marks := WithoutKey(keys, Marks(statusList, disabledTime, disabledReason), index);
      if |remaining| == 0 {
        return LastKey;
      }
      var ok := Update(Join(remaining, '\n'), marks, works);
      return if ok then Changed(1) else Failed;
    }

    method DeleteDisabledKeys(works: Writes) returns (reply: Reply)
      modifies this
      ensures var n, marks := |Keys(old(View()))|, old(View()).marks;
        reply == (if forall i :: 0 <= i < n ==> StatusOf(marks, i) != AUTO_DISABLED then NothingToDo
                  else if works.All() then Changed(n - |Positions(n, NotAuto(n, marks))|) else Failed)
      ensures View() == if works.row then Act(old(View()), DeleteDisabled) else old(View())
    {
      var keys := GetKeys();
      var remaining, marks, deletedCount := WithoutAutoDisabled(keys, Marks(statusList, disabledTime, disabledReason));
      AllPositionsKept(|keys|, View().marks);
      if deletedCount == 0 {
        return NothingToDo;
      }
      var ok := Update(Join(remaining, '\n'), marks, works);
      return if ok then Changed(deletedCount) else Failed;
    }
  }

  /** The loop over the keys, which leaves position zero when it finds none. */
  method FindKey(keys: seq<string>, key: string) returns (keyIndex: nat)
    requires keys != []
    ensures keyIndex == PositionOf(keys, key)
  {
    for i := 0 to |keys|
      invariant key !in keys[..i]
    {
      if keys[i] == key {
        assert key in keys;
        FirstPosition(keys, key, i);
        return i;
      }
      assert keys[..i + 1] == keys[..i] + [keys[i]];
    }
    assert keys[..|keys|] == keys;
    return 0;
  }

  lemma FirstPosition(keys: seq<string>, key: string, i: nat)
    requires i < |keys| && keys[i] == key && key !in keys[..i]
    ensures PositionOf(keys, key) == i
  {
    var j := PositionOf(keys, key);
    forall k | 0 <= k < i ensures keys[k] != key {
      assert keys[..i][k] == keys[k];
    }
    forall k | 0 <= k < j ensures keys[k] != key {
      assert keys[..j][k] == keys[k];
    }
  }

  lemma HasMember(s: set<int>)
    ensures s == {} || exists i :: i in s
  {
    if forall i :: i !in s {
      assert s == {};
    }
  }

  method DropPastEnd(status: map<int, int>, size: int) returns (statuses: map<int, int>)
    ensures statuses == map i | i in status && i < size :: status[i]
  {
    statuses := status;
    var todo := status.Keys;
    while todo != {}
      invariant todo <= status.Keys
      invariant statuses == map i | i in status && (i in todo || i < size) :: status[i]
    {
      HasMember(todo);
      var i :| i in todo;
      if i >= size {
        statuses := statuses - {i};
      }
      todo := todo - {i};
    }
  }

  function EnabledAmong(status: map<int, int>, size: int): set<int> {
    set i | 0 <= i < size && (i in status ==> status[i] == ENABLED)
  }

  lemma EnabledAmongStep(status: map<int, int>, i: nat)
    ensures EnabledAmong(status, i + 1) ==
      if i in status && status[i] != ENABLED then EnabledAmong(status, i) else EnabledAmong(status, i) + {i}
    ensures i !in EnabledAmong(status, i)
  {
  }

  /** Marks every enabled key as manually disabled and counts them. */
  method DisableEnabled(status: map<int, int>, size: nat) returns (statuses: map<int, int>, disabledCount: nat)
    ensures statuses == AllDisabled(status, size)
    ensures disabledCount == |EnabledAmong(status, size)|
  {
    statuses, disabledCount := status, 0;
    for i := 0 to size
      invariant statuses == AllDisabled(status, i)
      invariant disabledCount == |EnabledAmong(status, i)|
    {
      AllDisabledMeaning(status, i);
      EnabledAmongStep(status, i);
      var current := ENABLED;
      if i in statuses {
        current := statuses[i];
      }
      if current == ENABLED {
        statuses := statuses[i := MANUALLY_DISABLED];
        disabledCount := disabledCount + 1;
      }
    }
  }

  /** The positions that disabling all keys changes and counts. */
  lemma EnabledAmongMeaning(marks: Marks, size: int, i: int)
    ensures i in EnabledAmong(marks.status, size) <==> 0 <= i < size && (i !in marks.status || marks.status[i] == 1)
  {
  }

  /** Deleting the disabled keys leaves as many as there are positions without status 3. */
  lemma StayingCount(n: nat, marks: Marks)
    ensures |Positions(n, NotAuto(n, marks))| == |NotAuto(n, marks)|
    ensures forall i :: i in NotAuto(n, marks) <==> 0 <= i < n && (i in marks.status ==> marks.status[i] != 3)
  {
    var allowed := NotAuto(n, marks);
    NotAutoMeaning(n, marks);
    KeptInRange(n, allowed);
    KeepNoDuplicates(Range(n), allowed);
    NoDuplicatesSize(Positions(n, allowed));
    assert Elems(Positions(n, allowed)) == allowed;
  }

  lemma NoneEnabled(marks: Marks, size: int)
    ensures EnabledAmong(marks.status, size) == {} <==> forall i :: 0 <= i < size ==> StatusOf(marks, i) != ENABLED
  {
    if forall i :: 0 <= i < size ==> StatusOf(marks, i) != ENABLED {
      forall i | 0 <= i < size ensures i !in EnabledAmong(marks.status, size) {
        assert StatusOf(marks, i) != ENABLED;
      }
    } else {
      var i :| 0 <= i < size && StatusOf(marks, i) == ENABLED;
      assert i in EnabledAmong(marks.status, size);
    }
  }

  lemma ReindexedAppend(marks: Marks, indices: seq<int>, i: int)
    ensures Reindexed(marks, indices + [i]) == CopyMarks(Reindexed(marks, indices), |indices|, marks, i)
  {
    assert (indices + [i])[..|indices|] == indices;
  }

  /** The keys and maps rebuilt so far from the allowed ones among the first i positions. */
  ghost predicate Rebuilt(
    keys: seq<string>, marks: Marks, allowed: set<int>, i: nat, remaining: seq<string>, left: Marks)
    requires i <= |keys|
  {
    remaining == Pick(keys, Positions(i, allowed)) && left == Reindexed(marks, Positions(i, allowed))
  }

  lemma RebuiltStep(keys: seq<string>, marks: Marks, allowed: set<int>, i: nat, remaining: seq<string>, left: Marks)
    requires i < |keys| && Rebuilt(keys, marks, allowed, i, remaining, left)
    ensures if i in allowed
      then Rebuilt(keys, marks, allowed, i + 1, remaining + [keys[i]], CopyMarks(left, |remaining|, marks, i))
      else Rebuilt(keys, marks, allowed, i + 1, remaining, left)
  {
    PositionsStep(i, allowed);
    if i in allowed {
      var indices := Positions(i, allowed);
      ReindexedAppend(marks, indices, i);
      assert Pick(keys, indices + [i]) == Pick(keys, indices) + [keys[i]];
    }
  }

  /** The keys and maps after skipping one position, which a stale size may put past the end. */
  method WithoutKey(keys: seq<string>, marks: Marks, index: int) returns (remaining: seq<string>, left: Marks)
    requires index >= 0
    ensures remaining == RemainingKeys(keys, AllBut(|keys|, index))
    ensures |remaining| == if index < |keys| then |keys| - 1 else |keys|
    ensures left == Reindexed(marks, Positions(|keys|, AllBut(|keys|, index)))
  {
    remaining, left := [], NO_MARKS;
    ghost var allowed := AllBut(|keys|, index);
    var newIndex := 0;
    for i := 0 to |keys|
      invariant Rebuilt(keys, marks, allowed, i, remaining, left)
      invariant newIndex == |remaining| == if i <= index then i else i - 1
    {
      AllButMeaning(|keys|, index, i);
      RebuiltStep(keys, marks, allowed, i, remaining, left);
      if i != index {
        remaining := remaining + [keys[i]];
        left := CopyMarks(left, newIndex, marks, i);
        newIndex := newIndex + 1;
      }
    }
  }

  lemma CopyStripped(left: Marks, to: int, marks: Marks, i: int)
    ensures CopyMarks(left, to, Stripped(marks), i)
      == if StatusOf(marks, i) == ENABLED then left else CopyMarks(left, to, marks, i)
  {
  }

  /** The keys and maps after skipping the automatically disabled positions; enabled ones lose time and reason. */
  method WithoutAutoDisabled(keys: seq<string>, marks: Marks)
    returns (remaining: seq<string>, left: Marks, deletedCount: nat)
    ensures remaining == RemainingKeys(keys, NotAuto(|keys|, marks))
    ensures left == Reindexed(Stripped(marks), Positions(|keys|, NotAuto(|keys|, marks)))
    ensures deletedCount == |keys| - |remaining|
  {
    remaining, left, deletedCount := [], NO_MARKS, 0;
    ghost var allowed := NotAuto(|keys|, marks);
    var newIndex := 0;
    for i := 0 to |keys|
      invariant Rebuilt(keys, Stripped(marks), allowed, i, remaining, left)
      invariant newIndex == |remaining| == i - deletedCount
    {
      NotAutoAt(|keys|, marks, i);
      RebuiltStep(keys, Stripped(marks), allowed, i, remaining, left);
      CopyStripped(left, newIndex, marks, i);
      var status := ENABLED;
      if i in marks.status {
        status := marks.status[i];
      }
      if status == AUTO_DISABLED {
        deletedCount := deletedCount + 1;
      } else {
        remaining := remaining + [keys[i]];
        if status != ENABLED {
          left := CopyMarks(left, newIndex, marks, i);
        }
        newIndex := newIndex + 1;
      }
    }
  }

  lemma AllButMeaning(n: nat, index: int, i: int)
    requires 0 <= i < n
    ensures i in AllBut(n, index) <==> i != index
  {
    assert Range(n)[i] == i;
  }

  lemma NotAutoAt(n: nat, marks: Marks, i: int)
    requires 0 <= i < n
    ensures i in NotAuto(n, marks) <==> StatusOf(marks, i) != AUTO_DISABLED
  {
    assert Range(n)[i] == i;
  }

  lemma PositionsStep(i: nat, allowed: set<int>)
    ensures Positions(i + 1, allowed) == if i in allowed then Positions(i, allowed) + [i] else Positions(i, allowed)
  {
    assert Range(i + 1)[..i] == Range(i);
  }
}
