/** The paged status view of a multi-key channel. */
module MultiKeyPages {
  import opened MultiKeySpec
  import opened Options

  const DEFAULT_PAGE_SIZE := 50
  const PREVIEW_LENGTH := 10

  datatype KeyStatus = KeyStatus(index: int, status: int, disabledTime: int, reason: string, keyPreview: string)

  datatype StatusPage = StatusPage(
    keys: seq<KeyStatus>, total: nat, page: int, pageSize: int, totalPages: int,
    enabled: nat, manuallyDisabled: nat, autoDisabled: nat)

  function Preview(key: string): string {
    if |key| > PREVIEW_LENGTH then key[..PREVIEW_LENGTH] + "..." else key
  }

  /** How a record is shown: time and reason only for a disabled key, with zero values when missing. */
  function Shown(record: Record, index: int): KeyStatus {
    var disabled := record.status != ENABLED;
    KeyStatus(index, record.status,
              if disabled && record.time.Some? then record.time.value else 0,
              if disabled && record.reason.Some? then record.reason.value else "",
              Preview(record.key))
  }

  function AllShown(records: seq<Record>): seq<KeyStatus> {
    if records == [] then []
    else AllShown(records[..|records| - 1]) + [Shown(records[|records| - 1], |records| - 1)]
  }

  function Matching(entries: seq<KeyStatus>, status: Option<int>): seq<KeyStatus> {
    if status.None? then entries
    else if entries == [] then []
    else
      var rest, last := Matching(entries[..|entries| - 1], status), entries[|entries| - 1];
      if last.status == status.value then rest + [last] else rest
  }

  function CountStatus(records: seq<Record>, status: int): nat {
    if records == [] then 0
    else CountStatus(records[..|records| - 1], status) + if records[|records| - 1].status == status then 1 else 0
  }

  function Statuses(records: seq<Record>): seq<int> {
    seq(|records|, i requires 0 <= i < |records| => records[i].status)
  }

  /** A status is counted as often as it occurs. */
  lemma {:induction false} CountStatusMeaning(records: seq<Record>, status: int)
    ensures CountStatus(records, status) == multiset(Statuses(records))[status]
  {
    if records != [] {
      var front, last := records[..|records| - 1], records[|records| - 1];
      CountStatusMeaning(front, status);
      assert Statuses(records) == Statuses(front) + [last.status];
    }
  }

  function PageCount(total: nat, pageSize: int): int
    requires pageSize > 0
  {
    if total == 0 then 1 else (total + pageSize - 1) / pageSize
  }

  function Min(a: int, b: int): int {
    if a < b then a else b
  }

  function PageStart(page: int, pageSize: int): (start: int)
    requires page >= 1 && pageSize > 0
    ensures start >= 0
  {
    ProductNonNegative(page - 1, pageSize);
    (page - 1) * pageSize
  }

  /** The page that is shown for a page number, counted from one; too large a number shows the last page. */
  function PageOf<T>(entries: seq<T>, page: int, pageSize: int): (shown: seq<T>)
    requires page >= 1 && pageSize > 0
    ensures |shown| <= pageSize
  {
    PageCountBounds(|entries|, pageSize);
    var start := PageStart(Min(page, PageCount(|entries|, pageSize)), pageSize);
    if start < |entries| then entries[start..Min(start + pageSize, |entries|)] else []
  }

  lemma PageCountBounds(total: nat, pageSize: int)
    requires pageSize > 0
    ensures var n := PageCount(total, pageSize);
      n >= 1 && PageStart(n, pageSize) + pageSize >= total && (total > 0 ==> PageStart(n, pageSize) < total)
  {
    var n := PageCount(total, pageSize);
    if total > 0 {
      var r := (total + pageSize - 1) % pageSize;
      assert total + pageSize - 1 == pageSize * n + r;
      ProductSign(n, pageSize);
      assert (n - 1) * pageSize == pageSize * n - pageSize;
    }
  }

  lemma ProductSign(n: int, pageSize: int)
    requires pageSize > 0
    ensures n <= 0 ==> pageSize * n <= 0
  {
  }

  lemma ProductNonNegative(a: int, b: int)
    requires a >= 0 && b >= 0
    ensures a * b >= 0
  {
  }

  /** Every key with its status, and the three counts, in one pass. */
  method StatusList(records: seq<Record>)
    returns (entries: seq<KeyStatus>, enabled: nat, manuallyDisabled: nat, autoDisabled: nat)
    ensures entries == AllShown(records)
    ensures enabled == CountStatus(records, ENABLED)
    ensures manuallyDisabled == CountStatus(records, MANUALLY_DISABLED)
    ensures autoDisabled == CountStatus(records, AUTO_DISABLED)
  {
    entries, enabled, manuallyDisabled, autoDisabled := [], 0, 0, 0;
    for i := 0 to |records|
      invariant entries == AllShown(records[..i])
      invariant enabled == CountStatus(records[..i], ENABLED)
      invariant manuallyDisabled == CountStatus(records[..i], MANUALLY_DISABLED)
      invariant autoDisabled == CountStatus(records[..i], AUTO_DISABLED)
    {
      assert records[..i + 1][..i] == records[..i];
      var record := records[i];
      if record.status == ENABLED {
        enabled := enabled + 1;
      } else if record.status == MANUALLY_DISABLED {
        manuallyDisabled := manuallyDisabled + 1;
      } else if record.status == AUTO_DISABLED {
        autoDisabled := autoDisabled + 1;
      }
      var disabledTime, reason := 0, "";
      if record.status != ENABLED {
        if record.time.Some? {
          disabledTime := record.time.value;
        }
        if record.reason.Some? {
          reason := record.reason.value;
        }
      }
      entries := entries + [KeyStatus(i, record.status, disabledTime, reason, Preview(record.key))];
    }
    assert records[..|records|] == records;
  }

  method Paginate(entries: seq<KeyStatus>, page: int, pageSize: int)
    returns (shown: seq<KeyStatus>, shownPage: int, totalPages: int)
    requires page >= 1 && pageSize > 0
    ensures totalPages == PageCount(|entries|, pageSize) && shownPage == Min(page, totalPages)
    ensures shown == PageOf(entries, page, pageSize)
  {
    PageCountBounds(|entries|, pageSize);
    totalPages := (|entries| + pageSize - 1) / pageSize;
    if totalPages == 0 {
      totalPages := 1;
    }
    EmptyPageCount(|entries|, pageSize);
    shownPage := if page > totalPages then totalPages else page;
    var start := PageStart(shownPage, pageSize);
    var end := start + pageSize;
    if end > |entries| {
      end := |entries|;
    }
    shown := [];
    if start < |entries| {
      shown := entries[start..end];
    }
  }

  lemma EmptyPageCount(total: nat, pageSize: int)
    requires pageSize > 0
    ensures (total + pageSize - 1) / pageSize == if total == 0 then 0 else PageCount(total, pageSize)
  {
  }

  method GetKeyStatus(records: seq<Record>, page: int, pageSize: int, status: Option<int>) returns (r: StatusPage)
    ensures r.pageSize == if pageSize <= 0 then 50 else pageSize
    ensures var matching := Matching(AllShown(records), status); var asked := if page <= 0 then 1 else page;
      && r.total == |matching| && r.totalPages == PageCount(|matching|, r.pageSize)
      && r.page == Min(asked, r.totalPages)
      && r.keys == PageOf(matching, asked, r.pageSize)
    ensures var statuses := multiset(Statuses(records));
      r.enabled == statuses[1] && r.manuallyDisabled == statuses[2] && r.autoDisabled == statuses[3]
  {
    CountStatusMeaning(records, ENABLED);
    CountStatusMeaning(records, MANUALLY_DISABLED);
    CountStatusMeaning(records, AUTO_DISABLED);
    var asked, size := page, pageSize;
    if asked <= 0 {
      asked := 1;
    }
    if size <= 0 {
      size := DEFAULT_PAGE_SIZE;
    }
    var entries, enabled, manuallyDisabled, autoDisabled := StatusList(records);
    var filtered := FilterByStatus(entries, status);
    var keys, shownPage, totalPages := Paginate(filtered, asked, size);
    r := StatusPage(keys, |filtered|, shownPage, size, totalPages, enabled, manuallyDisabled, autoDisabled);
  }

  method FilterByStatus(entries: seq<KeyStatus>, status: Option<int>) returns (filtered: seq<KeyStatus>)
    ensures filtered == Matching(entries, status)
  {
    if status.None? {
      return entries;
    }
    filtered := [];
    for i := 0 to |entries|
      invariant filtered == Matching(entries[..i], status)
    {
      assert entries[..i + 1][..i] == entries[..i];
      if entries[i].status == status.value {
        filtered := filtered + [entries[i]];
      }
    }
    assert entries[..|entries|] == entries;
  }

  // ---- what the pages show together ----

  /** The first n pages, one after the other. */
  function Pages<T>(entries: seq<T>, n: nat, pageSize: int): seq<T>
    requires pageSize > 0
  {
    if n == 0 then [] else Pages(entries, n - 1, pageSize) + PageOf(entries, n, pageSize)
  }

  lemma {:induction false} PagesPrefix<T>(entries: seq<T>, n: nat, pageSize: int)
    requires pageSize > 0 && n <= PageCount(|entries|, pageSize)
    ensures Pages(entries, n, pageSize) == entries[..Min(PageStart(n + 1, pageSize), |entries|)]
  {
    if n > 0 {
      PagesPrefix(entries, n - 1, pageSize);
      PageCountBounds(|entries|, pageSize);
      var start := PageStart(n, pageSize);
      NextPageStart(n, pageSize);
      OnePageMore(entries, start, pageSize);
    }
  }

  lemma NextPageStart(n: int, pageSize: int)
    requires n >= 1 && pageSize > 0
    ensures PageStart(n + 1, pageSize) == PageStart(n, pageSize) + pageSize
  {
  }

  lemma OnePageMore<T>(entries: seq<T>, start: nat, pageSize: nat)
    ensures entries[..Min(start, |entries|)]
        + (if start < |entries| then entries[start..Min(start + pageSize, |entries|)] else [])
      == entries[..Min(start + pageSize, |entries|)]
  {
  }

  /** Reading every page once shows exactly the filtered keys, in order and without overlap. */
  lemma PagesShowEverything<T>(entries: seq<T>, pageSize: int)
    requires pageSize > 0
    ensures Pages(entries, PageCount(|entries|, pageSize), pageSize) == entries
  {
    var n := PageCount(|entries|, pageSize);
    PageCountBounds(|entries|, pageSize);
    PagesPrefix(entries, n, pageSize);
    NextPageStart(n, pageSize);
    assert entries[..|entries|] == entries;
  }

  /** A page number past the end shows the last page, and only an empty list has an empty page. */
  lemma PagesPastTheEnd<T>(entries: seq<T>, page: int, pageSize: int)
    requires page >= 1 && pageSize > 0
    ensures page >= PageCount(|entries|, pageSize) ==>
      PageOf(entries, page, pageSize) == PageOf(entries, PageCount(|entries|, pageSize), pageSize)
    ensures PageOf(entries, page, pageSize) == [] <==> entries == []
  {
    PageCountBounds(|entries|, pageSize);
    var last := PageCount(|entries|, pageSize);
    if page < last {
      ProductMonotone(page - 1, last - 1, pageSize);
    }
  }

  /** Every page but the last is full, none holds more, and the last holds something unless the list is empty. */
  lemma PageSizes<T>(entries: seq<T>, page: int, pageSize: int)
    requires page >= 1 && pageSize > 0
    ensures |PageOf(entries, page, pageSize)| <= pageSize
    ensures page < PageCount(|entries|, pageSize) ==> |PageOf(entries, page, pageSize)| == pageSize
    ensures entries == [] ==> PageCount(|entries|, pageSize) == 1
  {
    var n := PageCount(|entries|, pageSize);
    PageCountBounds(|entries|, pageSize);
    if page < n {
      ProductMonotone(page, n - 1, pageSize);
      NextPageStart(page, pageSize);
    }
  }

  lemma ProductMonotone(a: int, b: int, c: int)
    requires a <= b && c >= 0
    ensures a * c <= b * c
  {
    ProductNonNegative(b - a, c);
    assert (b - a) * c == b * c - a * c;
  }

  /** The three counts add up to the number of keys iff every status is one of the three known ones. */
  lemma {:induction false} CountsAddUpIff(records: seq<Record>)
    ensures var counted := CountStatus(records, ENABLED) + CountStatus(records, MANUALLY_DISABLED)
                           + CountStatus(records, AUTO_DISABLED);
      && counted <= |records|
      && (counted == |records| <==> forall i :: 0 <= i < |records| ==> ENABLED <= records[i].status <= AUTO_DISABLED)
  {
    if records != [] {
      var front := records[..|records| - 1];
      CountsAddUpIff(front);
      assert forall i :: 0 <= i < |front| ==> front[i] == records[i];
    }
  }

  /** An unfiltered view lists every key at its own index. */
  lemma {:induction false} ShownInOrder(records: seq<Record>)
    ensures |AllShown(records)| == |records|
    ensures forall i :: 0 <= i < |records| ==> AllShown(records)[i] == Shown(records[i], i)
  {
    if records != [] {
      ShownInOrder(records[..|records| - 1]);
    }
  }

  /** A filtered view lists exactly the keys with that status, each with its own index. */
  lemma {:induction false} MatchingMeaning(entries: seq<KeyStatus>, status: int)
    ensures forall e :: e in Matching(entries, Some(status)) <==> e in entries && e.status == status
  {
    if entries != [] {
      MatchingMeaning(entries[..|entries| - 1], status);
      assert entries == entries[..|entries| - 1] + [entries[|entries| - 1]];
    }
  }

  /** The filtered view keeps the order, and without a filter it is the whole list. */
  lemma {:induction false} MatchingInOrder(a: seq<KeyStatus>, b: seq<KeyStatus>, status: Option<int>)
    ensures Matching(a + b, status) == Matching(a, status) + Matching(b, status)
    ensures status.None? ==> Matching(a, status) == a
  {
    if b == [] {
      assert a + b == a;
    } else {
      var front, last := b[..|b| - 1], b[|b| - 1];
      MatchingInOrder(a, front, status);
      assert (a + b)[..|a + b| - 1] == a + front && (a + b)[|a + b| - 1] == last;
    }
  }

  /** What is shown of a key: its time and reason only while it is disabled, and ten characters of a long key. */
  lemma ShownMeaning(record: Record, index: int)
    ensures var shown := Shown(record, index);
      && shown.index == index && shown.status == record.status
      && (record.status == 1 ==> shown.disabledTime == 0 && shown.reason == "")
      && (record.status != 1 ==>
            && (record.time == Some(shown.disabledTime) || (record.time.None? && shown.disabledTime == 0))
            && (record.reason == Some(shown.reason) || (record.reason.None? && shown.reason == "")))
      && (|record.key| <= 10 ==> shown.keyPreview == record.key)
      && (|record.key| > 10 ==> |shown.keyPreview| == 13 && shown.keyPreview[..10] <= record.key && shown.keyPreview[10..] == "...")
  {
  }
}
