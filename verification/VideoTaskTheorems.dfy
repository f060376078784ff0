/** Conservation of money over runs of polls of one video task. */
module VideoTaskTheorems {
  import opened Options
  import opened VideoTask

  /** What the user currently pays for the task: its quota, or nothing once it has failed. */
  function Charged(task: Task): int {
    if task.status.Failure? then 0 else task.quota
  }

  function Worth(a: Account): int {
    a.balance + Charged(a.task)
  }

  predicate Settles(task: Task, report: Report, rates: Option<Rates>, works: Works) {
    var actual := ActualQuota(report, rates);
    actual.Some? && works.settle && actual.value != task.quota
  }

  /**
   * A poll that loses or creates no money: an unknown status; a live or success report that does not revive
   * a failed paid task and, if it settles, is stored; a failure report that is not stored, finds the task
   * failed already or free, or whose refund goes through.
   */
  predicate Fair(task: Task, report: Report, rates: Option<Rates>, works: Works) {
    var status := EffectiveStatus(report);
    if Rejected(status) then true
    else if status.Failure? then
      !works.update || task.status.Failure? || task.quota == 0 || (works.refund && task.quota > 0)
    else if works.update then !task.status.Failure? || task.quota == 0
    else !Settles(task, report, rates, works)
  }

  /** One poll conserves the balance plus the charge exactly when it is fair. */
  lemma ConservedIffFair(a: Account, report: Report, rates: Option<Rates>, now: int, works: Works)
    ensures Worth(Polled(a, report, rates, now, works)) == Worth(a) <==> Fair(a.task, report, rates, works)
  {
  }

  /** How much a poll that is not fair creates (if positive) or loses (if negative). */
  lemma UnfairDrift(a: Account, report: Report, rates: Option<Rates>, now: int, works: Works)
    requires !Fair(a.task, report, rates, works)
    ensures Worth(Polled(a, report, rates, now, works)) - Worth(a) ==
      if EffectiveStatus(report).Failure? then -a.task.quota
      else if works.update then a.task.quota
      else a.task.quota - ActualQuota(report, rates).value
  {
  }

  /**
   * A success with tokens and a ratio settles at tokens * model ratio * group ratio, rounded down, and the
   * balance falls by what the quota rises by.
   */
  lemma SuccessSettlesAtPrice(a: Account, report: Report, rates: Rates, now: int)
    requires report.status == Some(Success) && report.totalTokens > 0
    requires rates.modelRatio > 0.0 && rates.groupRatio >= 0.0
    ensures var after := Polled(a, report, Some(rates), now, Works(true, true, true));
      var price := report.totalTokens as real * rates.modelRatio * rates.groupRatio;
      && after.task.quota as real <= price < after.task.quota as real + 1.0
      && after.balance == a.balance - (after.task.quota - a.task.quota)
  {
    ActualQuotaNonNegative(report, Some(rates));
    var perToken := report.totalTokens as real * rates.modelRatio;
    assert perToken > 0.0;
    assert perToken * rates.groupRatio >= 0.0;
  }

  /** Without tokens, rates or a positive model ratio, and in every state but success, nothing is settled. */
  lemma NothingToSettle(a: Account, report: Report, rates: Option<Rates>, now: int, works: Works)
    requires report.status != Some(Success) || report.totalTokens <= 0 || rates.None? || rates.value.modelRatio <= 0.0
    ensures var after := Polled(a, report, rates, now, works);
      after.task.quota == a.task.quota && (report.status.Some? && report.status != Some(Failure) ==> after.balance == a.balance)
  {
  }

  /** Where a negative group ratio makes a negative price, it is rounded towards zero. */
  lemma NegativePriceRoundsUp(a: Account, report: Report, rates: Rates, now: int)
    requires report.status == Some(Success) && report.totalTokens > 0
    requires rates.modelRatio > 0.0 && rates.groupRatio < 0.0
    ensures var after := Polled(a, report, Some(rates), now, Works(true, true, true));
      var price := report.totalTokens as real * rates.modelRatio * rates.groupRatio;
      after.task.quota as real - 1.0 < price <= after.task.quota as real
  {
    var perToken := report.totalTokens as real * rates.modelRatio;
    assert perToken > 0.0;
    assert perToken * rates.groupRatio < 0.0;
  }

  function ProgressOr(report: Report, otherwise: string): string {
    if report.progress == "" then otherwise else report.progress
  }

  /** What is stored of a report, when the update works: status, progress, times and reason. */
  lemma StoredOfReport(a: Account, report: Report, rates: Option<Rates>, now: int, settle: bool, refund: bool)
    requires report.status.Some?
    ensures var old', task := a.task, Polled(a, report, rates, now, Works(settle, true, refund)).task;
      match report.status.value
      case Submitted => task.status == Submitted && task.progress == ProgressOr(report, "10%")
      case Queued => task.status == Queued && task.progress == ProgressOr(report, "20%")
      case InProgress =>
        && task.status == InProgress && task.progress == ProgressOr(report, "30%")
        && task.startTime == (if old'.startTime == 0 then now else old'.startTime)
        && task.finishTime == old'.finishTime
      case Success =>
        && task.status == Success && task.progress == ProgressOr(report, "100%")
        && task.finishTime == (if old'.finishTime == 0 then now else old'.finishTime)
        && task.failReason == (if "data:" < report.url then old'.failReason else report.url)
      case Failure =>
        && task.status == Failure && task.progress == "100%" && task.failReason == report.reason
        && task.finishTime == (if old'.finishTime == 0 then now else old'.finishTime)
      case _ => task == old'
  {
    assert IsDataUrl(report.url) <==> "data:" < report.url;
  }

  /** A report without a status is stored as a failure. */
  lemma EmptyStatusFails(a: Account, report: Report, rates: Option<Rates>, now: int, settle: bool, refund: bool)
    requires report.status.None?
    ensures Polled(a, report, rates, now, Works(settle, true, refund))
      == Polled(a, Report(Some(Failure), "upstream returned empty status", "", "", 0), rates, now, Works(settle, true, refund))
  {
  }

  /** A task abandoned with its channel loses its charge, unless it is free or had failed already. */
  lemma AbandoningLosesTheCharge(a: Account, reason: string, works: bool)
    ensures Worth(Abandoned(a, reason, works)) == Worth(a) - (if works then Charged(a.task) else 0)
    ensures var task := Abandoned(a, reason, works).task;
      if works then task.status == Failure && task.progress == "100%" && task.failReason == reason && task.quota == a.task.quota
      else task == a.task
  {
  }

  datatype Event =
    | Poll(report: Report, rates: Option<Rates>, now: int, works: Works)
    | ChannelGone(reason: string, stored: bool)

  function After(a: Account, e: Event): Account {
    match e
    case Poll(report, rates, now, works) => Polled(a, report, rates, now, works)
    case ChannelGone(reason, stored) => Abandoned(a, reason, stored)
  }

  function Run(a: Account, events: seq<Event>): Account {
    if events == [] then a else After(Run(a, events[..|events| - 1]), events[|events| - 1])
  }

  /** The event moves no money, or moves it between the balance and the charge. */
  predicate FairEvent(task: Task, e: Event) {
    match e
    case Poll(report, rates, _, works) => Fair(task, report, rates, works)
    case ChannelGone(_, stored) => !stored || task.status.Failure? || task.quota == 0
  }

  lemma EventConservesIffFair(a: Account, e: Event)
    ensures Worth(After(a, e)) == Worth(a) <==> FairEvent(a.task, e)
  {
    match e {
      case Poll(report, rates, now, works) => ConservedIffFair(a, report, rates, now, works);
      case ChannelGone(reason, stored) => AbandoningLosesTheCharge(a, reason, stored);
    }
  }

  /** The events of a run that are fair to the task as they find it. */
  predicate FairAt(a: Account, events: seq<Event>, n: nat)
    requires n < |events|
  {
    FairEvent(Run(a, events[..n]).task, events[n])
  }

  /** With any mixture of failing writes, revived and abandoned tasks: a run conserves all along iff each event is fair. */
  lemma {:induction false} ConservedAllAlongIff(a: Account, events: seq<Event>)
    ensures (forall n :: 0 <= n <= |events| ==> Worth(Run(a, events[..n])) == Worth(a))
      <==> (forall n :: 0 <= n < |events| ==> FairAt(a, events, n))
  {
    assert events[..0] == [];
    forall n | 0 <= n < |events|
      ensures Worth(Run(a, events[..n + 1])) == Worth(Run(a, events[..n])) <==> FairAt(a, events, n)
    {
      assert events[..n + 1][..n] == events[..n];
      EventConservesIffFair(Run(a, events[..n]), events[n]);
    }
    if forall n :: 0 <= n < |events| ==> FairAt(a, events, n) {
      var k := 0;
      while k < |events|
        invariant 0 <= k <= |events|
        invariant forall n :: 0 <= n <= k ==> Worth(Run(a, events[..n])) == Worth(a)
      {
        assert FairAt(a, events, k);
        k := k + 1;
      }
    } else {
      var n :| 0 <= n < |events| && !FairAt(a, events, n);
      assert Worth(Run(a, events[..n + 1])) != Worth(Run(a, events[..n]));
    }
  }

  predicate IsLive(report: Report) {
    var status := EffectiveStatus(report);
    !Rejected(status) && !status.Failure?
  }

  /** The channel stays, every storage operation succeeds, no ratio is negative, and nothing live follows a failure. */
  ghost predicate Orderly(a: Account, events: seq<Event>) {
    && a.task.quota >= 0
    && (forall i :: 0 <= i < |events| ==> events[i].Poll? && events[i].works == Works(true, true, true))
    && (forall i :: 0 <= i < |events| && events[i].rates.Some? ==> events[i].rates.value.groupRatio >= 0.0)
    && (a.task.status.Failure? ==> forall i :: 0 <= i < |events| ==> !IsLive(events[i].report))
    && (forall i, j :: 0 <= i < j < |events| && EffectiveStatus(events[i].report).Failure? ==> !IsLive(events[j].report))
  }

  predicate FailedIn(a: Account, events: seq<Event>)
    requires forall i :: 0 <= i < |events| ==> events[i].Poll?
  {
    a.task.status.Failure? || exists i :: 0 <= i < |events| && EffectiveStatus(events[i].report).Failure?
  }

  lemma ActualQuotaNonNegative(report: Report, rates: Option<Rates>)
    requires rates.Some? ==> rates.value.groupRatio >= 0.0
    ensures ActualQuota(report, rates).Some? ==> ActualQuota(report, rates).value >= 0
  {
    if ActualQuota(report, rates).Some? {
      var perToken := report.totalTokens as real * rates.value.modelRatio;
      assert perToken >= 0.0;
      assert perToken * rates.value.groupRatio >= 0.0;
    }
  }

  /** Over every orderly run of polls the balance plus the charge is constant, and a failed task stays failed. */
  lemma {:induction false} EveryOrderlyRunConserves(a: Account, events: seq<Event>)
    requires Orderly(a, events)
    ensures Worth(Run(a, events)) == Worth(a)
    ensures Run(a, events).task.status.Failure? <==> FailedIn(a, events)
    ensures Run(a, events).task.quota >= 0
  {
    if events != [] {
      var n := |events| - 1;
      var front, e := events[..n], events[n];
      assert forall i :: 0 <= i < n ==> front[i] == events[i];
      EveryOrderlyRunConserves(a, front);
      var before := Run(a, front);
      ActualQuotaNonNegative(e.report, e.rates);
      if before.task.status.Failure? {
        assert FailedIn(a, front);
        assert !IsLive(e.report);
      }
      assert Fair(before.task, e.report, e.rates, e.works);
      ConservedIffFair(before, e.report, e.rates, e.now, e.works);
      assert FailedIn(a, events) <==> FailedIn(a, front) || EffectiveStatus(e.report).Failure?;
    }
  }

  /** A run that sees a failure gives back everything charged, once: however often the failure is reported. */
  lemma FailureRefundedOnce(a: Account, events: seq<Event>)
    requires Orderly(a, events) && FailedIn(a, events)
    ensures Run(a, events).balance == a.balance + Charged(a.task)
  {
    EveryOrderlyRunConserves(a, events);
  }

  /** Reporting the same success again moves no money and leaves the quota alone. */
  lemma SameSuccessChargesOnce(a: Account, report: Report, rates: Option<Rates>, now: int, later: int)
    requires EffectiveStatus(report).Success?
    ensures var works := Works(true, true, true);
      var once := Polled(a, report, rates, now, works);
      var twice := Polled(once, report, rates, later, works);
      twice.balance == once.balance && twice.task.quota == once.task.quota && twice.task.status == once.task.status
  {
  }

  /** Outside the conditions money does drift: a failed task reported live and failed again is refunded twice. */
  lemma RevivedTaskRefundedTwice(a: Account, now: int)
    requires a.task.quota > 0 && !a.task.status.Failure?
    ensures var works := Works(true, true, true);
      var failed, queued := Report(Some(Failure), "", "", "", 0), Report(Some(Queued), "", "", "", 0);
      var end := Polled(Polled(Polled(a, failed, None, now, works), queued, None, now, works), failed, None, now, works);
      end.balance == a.balance + 2 * a.task.quota && Charged(end.task) == 0
  {
  }
}
