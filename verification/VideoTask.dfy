/** Polling a video task: its status, the settlement of its price and the refund when it fails. */
module VideoTask {
  import opened Options

  datatype Status = NotStart | Submitted | Queued | InProgress | Failure | Success | Unknown | Other(text: string)

  /** What the upstream answers; a missing status is read as a failure. */
  datatype Report = Report(status: Option<Status>, reason: string, url: string, progress: string, totalTokens: int)

  /** The ratios found for the task's model and group, when every lookup on the way succeeds. */
  datatype Rates = Rates(modelRatio: real, groupRatio: real)

  datatype Task = Task(
    status: Status, progress: string, quota: int, startTime: int, finishTime: int, failReason: string)

  /** Which of the storage operations of one poll succeed. */
  datatype Works = Works(settle: bool, update: bool, refund: bool)

  datatype Account = Account(balance: int, task: Task)

  const EMPTY_STATUS_REASON := "upstream returned empty status"

  /** Go's int(float64): truncation toward zero. */
  function Truncate(x: real): int {
    if x >= 0.0 then x.Floor else -((-x).Floor)
  }

  function EffectiveStatus(report: Report): Status {
    if report.status.None? then Failure else report.status.value
  }

  predicate Rejected(status: Status) {
    status.NotStart? || status.Unknown? || status.Other?
  }

  /** The quota a success report asks for, when the task is settled by tokens. */
  function ActualQuota(report: Report, rates: Option<Rates>): Option<int> {
    if EffectiveStatus(report).Success? && report.totalTokens > 0 && rates.Some? && rates.value.modelRatio > 0.0
    then Some(Truncate(report.totalTokens as real * rates.value.modelRatio * rates.value.groupRatio))
    else None
  }

  /** The quota after settling: a failed charge or refund leaves it alone. */
  function SettledQuota(quota: int, report: Report, rates: Option<Rates>, works: Works): int {
    var actual := ActualQuota(report, rates);
    if actual.Some? && works.settle then actual.value else quota
  }

  function DefaultProgress(status: Status): string {
    match status
    case Submitted => "10%"
    case Queued => "20%"
    case InProgress => "30%"
    case _ => "100%"
  }

  predicate IsDataUrl(url: string) {
    |url| > 5 && url[..5] == "data:"
  }

  /** The task as a poll wants to store it, for an accepted status. */
  function NextTask(task: Task, report: Report, rates: Option<Rates>, now: int, works: Works): Task {
    var status := EffectiveStatus(report);
    var empty := report.status.None?;
    Task(
      status,
      if status.Failure? then "100%"
      else if report.progress != "" then report.progress else DefaultProgress(status),
      SettledQuota(task.quota, report, rates, works),
      if status.InProgress? && task.startTime == 0 then now else task.startTime,
      if (status.Success? || status.Failure?) && task.finishTime == 0 then now else task.finishTime,
      if status.Failure? then (if empty then EMPTY_STATUS_REASON else report.reason)
      else if status.Success? && !IsDataUrl(report.url) then report.url else task.failReason)
  }

  predicate Refunds(task: Task, report: Report, works: Works) {
    EffectiveStatus(report).Failure? && !task.status.Failure? && task.quota != 0
    && works.update && works.refund && task.quota >= 0
  }

  /** One poll. An unknown status changes nothing; a failed update keeps the stored task and forgoes the refund. */
  function Polled(a: Account, report: Report, rates: Option<Rates>, now: int, works: Works): Account {
    if Rejected(EffectiveStatus(report)) then a
    else
      var settled := SettledQuota(a.task.quota, report, rates, works);
      Account(
        a.balance - (settled - a.task.quota) + (if Refunds(a.task, report, works) then a.task.quota else 0),
        if works.update then NextTask(a.task, report, rates, now, works) else a.task)
  }

  /** What becomes of a task whose channel cannot be found: it fails, and nobody is refunded. */
  function Abandoned(a: Account, reason: string, works: bool): Account {
    if works then a.(task := a.task.(status := Failure, progress := "100%", failReason := reason)) else a
  }

  class Poller {
    /** The user's quota balance and the task row, as the database holds them. */
    var balance: int
    var stored: Task

    constructor (balance: int, task: Task)
      ensures this.balance == balance && stored == task
    {
      this.balance, stored := balance, task;
    }

    method IncreaseUserQuota(quota: int, works: bool) returns (ok: bool)
      modifies this`balance
      ensures ok == (quota >= 0 && works)
      ensures balance == if ok then old(balance) + quota else old(balance)
    {
      if quota < 0 || !works {
        return false;
      }
      balance := balance + quota;
      return true;
    }

    method DecreaseUserQuota(quota: int, works: bool) returns (ok: bool)
      modifies this`balance
      ensures ok == (quota >= 0 && works)
      ensures balance == if ok then old(balance) - quota else old(balance)
    {
      if quota < 0 || !works {
        return false;
      }
      balance := balance - quota;
      return true;
    }

    /** Charges or returns the difference to the actual quota; nothing moves when they agree. */
    method Settle(quota: int, actualQuota: int, works: bool) returns (settled: int)
      modifies this`balance
      ensures settled == if works then actualQuota else quota
      ensures balance == old(balance) - (settled - quota)
    {
      settled := quota;
      var quotaDelta := actualQuota - quota;
      if quotaDelta > 0 {
        var ok := DecreaseUserQuota(quotaDelta, works);
        if ok {
          settled := actualQuota;
        }
      } else if quotaDelta < 0 {
        var ok := IncreaseUserQuota(-quotaDelta, works);
        if ok {
          settled := actualQuota;
        }
      }
    }

    method Poll(reported: Report, rates: Option<Rates>, now: int, works: Works) returns (known: bool)
      modifies this
      ensures known <==> !Rejected(EffectiveStatus(reported))
      ensures Account(balance, stored) == Polled(Account(old(balance), old(stored)), reported, rates, now, works)
    {
      var report := reported;
      if report.status.None? {
        report := Report(Some(Failure), EMPTY_STATUS_REASON, "", "", 0);
      }
      var task := stored;
      var shouldRefund := false;
      var quota, preStatus := task.quota, task.status;
      var status := report.status.value;
      var progress := report.progress;
      task := task.(status := status);
      match status {
        case Submitted => task := task.(progress := "10%");
        case Queued => task := task.(progress := "20%");
        case InProgress =>
          task := task.(progress := "30%");
          if task.startTime == 0 {
            task := task.(startTime := now);
          }
        case Success =>
          task := task.(progress := "100%");
          if task.finishTime == 0 {
            task := task.(finishTime := now);
          }
          if !IsDataUrl(report.url) {
            task := task.(failReason := report.url);
          }
          if report.totalTokens > 0 && rates.Some? && rates.value.modelRatio > 0.0 {
            var actualQuota := Truncate(report.totalTokens as real * rates.value.modelRatio * rates.value.groupRatio);
            var settled := Settle(task.quota, actualQuota, works.settle);
            task := task.(quota := settled);
          }
        case Failure =>
          task := task.(progress := "100%");
          if task.finishTime == 0 {
            task := task.(finishTime := now);
          }
          task := task.(failReason := report.reason);
          progress := "100%";
          if quota != 0 && !preStatus.Failure? {
            shouldRefund := true;
          }
        case _ =>
          return false;
      }
      if progress != "" {
        task := task.(progress := progress);
      }
      if works.update {
        stored := task;
      } else {
        shouldRefund := false;
      }
      if shouldRefund {
        var refunded := IncreaseUserQuota(quota, works.refund);
      }
      return true;
    }

    /** The bulk update of the tasks of a channel that cannot be found, for this task. */
    method Abandon(reason: string, works: bool)
      modifies this`stored
      ensures Account(balance, stored) == Abandoned(Account(old(balance), old(stored)), reason, works)
    {
      if works {
        stored := stored.(failReason := reason, status := Failure, progress := "100%");
      }
    }
  }
}
