/** What the relay reports about the key it used: failing keys are disabled, working ones enabled again. */
module MultiKeyReports {
  import opened MultiKeyRefinement
  import opened MultiKeySpec
  import opened Options
  import opened Sequences

  datatype Report = Report(key: string, status: int, reason: string, now: int)

  /** The first position of a key; the position of the first key when there is no such key. */
  function PositionOf(keys: seq<string>, key: string): (i: nat)
    requires keys != []
    ensures i < |keys|
    ensures key in keys ==> keys[i] == key && key !in keys[..i]
    ensures key !in keys ==> i == 0
  {
    if keys[0] == key || key !in keys then 0 else PositionOf(keys[1..], key) + 1
  }

  /** The marks after a report: enabling a key again removes its status alone. */
  function MarksAfter(marks: Marks, i: int, report: Report): Marks {
    if report.status == ENABLED then marks.(status := marks.status - {i})
    else Marks(marks.status[i := report.status], marks.time[i := report.now], marks.reason[i := report.reason])
  }

  /** The channel after a report; its keys and size are not touched. */
  function Reported(state: State, report: Report): State {
    if Keys(state) == [] then state
    else state.(marks := MarksAfter(state.marks, PositionOf(Keys(state), report.key), report))
  }

  /** When the channel as a whole gets disabled after a report. */
  predicate AllSeemDisabled(state: State) {
    Keys(state) != [] && |state.marks.status| >= state.size
  }

  // ---- the plain list of records ----

  function Judged(record: Record, report: Report): Record {
    if report.status == ENABLED then Enabled(record)
    else Record(record.key, report.status, Some(report.now), Some(report.reason))
  }

  /** A report is about the first record with its key, if there is one. */
  function DoReport(records: seq<Record>, report: Report): seq<Record> {
    if report.key !in KeysIn(records) then records
    else
      var i := PositionOf(KeysIn(records), report.key);
      records[i := Judged(records[i], report)]
  }

  /**
   * A known key is disabled, or enabled without a time or reason to be kept by mistake; the report about an
   * unknown key says what holds of the first key anyway.
   */
  predicate ReportFits(records: seq<Record>, report: Report) {
    if records == [] then true
    else if report.key in KeysIn(records) then
      var r := records[PositionOf(KeysIn(records), report.key)];
      report.status == ENABLED ==> r.time.None? && r.reason.None?
    else
      var r := records[0];
      if report.status == ENABLED then r.status == ENABLED else r == Judged(r, report)
  }

  lemma ReportedRecords(state: State, report: Report)
    requires Keys(state) != []
    ensures var i, r := PositionOf(Keys(state), report.key), Records(state);
      Records(Reported(state, report)) ==
        r[i := if report.status == ENABLED then r[i].(status := ENABLED) else Judged(r[i], report)]
  {
  }

  /** A report does to the channel what it does to the list iff it fits. */
  lemma ReportRefinesIff(state: State, report: Report)
    ensures Records(Reported(state, report)) == DoReport(Records(state), report) <==> ReportFits(Records(state), report)
  {
    KeysOfRecords(state);
    if Keys(state) != [] {
      ReportedRecords(state, report);
      var i, r := PositionOf(Keys(state), report.key), Records(state);
      var got := if report.status == ENABLED then r[i].(status := ENABLED) else Judged(r[i], report);
      assert r[i].key == Keys(state)[i];
      if report.key in Keys(state) {
        UpdatesEqualIff(r, i, got, Judged(r[i], report));
      } else {
        UpdatesEqualIff(r, i, got, r[i]);
        assert r[i := r[i]] == r;
      }
    }
  }

  lemma UpdatesEqualIff(records: seq<Record>, i: nat, a: Record, b: Record)
    requires i < |records|
    ensures records[i := a] == records[i := b] <==> a == b
  {
    assert records[i := a][i] == a && records[i := b][i] == b;
  }

  /** A report with a key the channel does not have, such as an empty one, marks the first key. */
  lemma UnknownKeyMarksTheFirst(state: State, report: Report)
    requires Keys(state) != [] && report.key !in Keys(state) && report.status != ENABLED
    ensures Records(Reported(state, report)) == Records(state)[0 := Judged(Records(state)[0], report)]
  {
    ReportedRecords(state, report);
  }

  // ---- when the whole channel is disabled ----

  /** Every status entry belongs to a key and says something else than enabled. */
  ghost predicate StatusesKept(state: State) {
    forall i :: i in state.marks.status ==> 0 <= i < |Keys(state)| && state.marks.status[i] != ENABLED
  }

  /** The channel is taken for disabled iff its size is right and every key is indeed disabled. */
  lemma AllSeemDisabledIff(state: State)
    requires Counted(state) && StatusesKept(state) && Keys(state) != []
    ensures AllSeemDisabled(state) <==>
      state.size == |Keys(state)| && forall i :: 0 <= i < |Keys(state)| ==> StatusOf(state.marks, i) != ENABLED
  {
    var n := |Keys(state)|;
    var marked, all := state.marks.status.Keys, Elems(Range(n));
    forall i | 0 <= i < n ensures i in all {
      assert Range(n)[i] == i;
    }
    NoDuplicatesSize(Range(n));
    SubsetCount(marked, all);
    if marked == all {
      forall i | 0 <= i < n ensures StatusOf(state.marks, i) != ENABLED {
        assert i in all;
      }
    } else {
      var i :| i in all && i !in marked;
      assert StatusOf(state.marks, i) == ENABLED;
    }
  }

  lemma SubsetCount(a: set<int>, b: set<int>)
    requires a <= b
    ensures |a| <= |b| && (|a| == |b| <==> a == b)
  {
    assert b == a + (b - a);
    if |a| == |b| {
      assert b - a == {};
    }
  }
}
