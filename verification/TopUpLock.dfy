/**
 * The per-user top-up lock: a try-lock made of a channel of capacity one, found or created in a shared map
 * with a second check under a creation mutex. The protocol is a transition system over atomic steps, so a
 * run is any interleaving of any number of requests.
 */
module TopUpLock {
  import opened Options

  class TryLock {
    /** Whether the channel of capacity one holds its element. */
    var full: bool

    constructor ()
      ensures !full
    {
      full := false;
    }

    /** A send that gives up when the channel is full. */
    method Try() returns (acquired: bool)
      modifies this
      ensures full && (acquired <==> !old(full))
    {
      if full {
        return false;
      }
      full := true;
      return true;
    }

    /** A receive that gives up when the channel is empty. */
    method Unlock()
      modifies this
      ensures !full
    {
      if full {
        full := false;
      }
    }
  }

  type UserId = int
  type RequestId = int
  type LockId = nat

  /** Where a request stands between two atomic steps. */
  datatype Phase =
    | Arrived
    | Missed                     // the first load found no lock
    | Creating                   // holds the creation mutex
    | Made(lock: LockId)         // the second load found none, a lock is made but not stored
    | Stored(lock: LockId)       // has its lock, still holds the creation mutex
    | Resolved(lock: LockId)
    | Holding(lock: LockId)      // TryLock succeeded
    | Rejected(lock: LockId)     // TryLock failed
    | Finished(lock: LockId)     // unlocked

  datatype Request = Request(user: UserId, phase: Phase)

  datatype State = State(
    locks: map<UserId, LockId>,
    full: set<LockId>,
    mutex: Option<RequestId>,
    nextLock: LockId,
    requests: map<RequestId, Request>)

  const INITIAL := State(map[], {}, None, 0, map[])

  datatype Step =
    | Arrive(id: RequestId, user: UserId)
    | Load(id: RequestId)
    | LockCreation(id: RequestId)
    | LoadAgain(id: RequestId)
    | Store(id: RequestId)
    | UnlockCreation(id: RequestId)
    | TryStep(id: RequestId)
    | UnlockStep(id: RequestId)

  predicate InPhase(s: State, id: RequestId, phase: Phase) {
    id in s.requests && s.requests[id].phase == phase
  }

  predicate Enabled(s: State, step: Step) {
    match step
    case Arrive(id, _) => id !in s.requests
    case Load(id) => InPhase(s, id, Arrived)
    case LockCreation(id) => InPhase(s, id, Missed) && s.mutex.None?
    case LoadAgain(id) => InPhase(s, id, Creating)
    case Store(id) => id in s.requests && s.requests[id].phase.Made?
    case UnlockCreation(id) => id in s.requests && s.requests[id].phase.Stored?
    case TryStep(id) => id in s.requests && s.requests[id].phase.Resolved?
    case UnlockStep(id) => id in s.requests && s.requests[id].phase.Holding?
  }

  function Move(s: State, id: RequestId, phase: Phase): State
    requires id in s.requests
  {
    s.(requests := s.requests[id := s.requests[id].(phase := phase)])
  }

  function Next(s: State, step: Step): State
    requires Enabled(s, step)
  {
    match step
    case Arrive(id, user) => s.(requests := s.requests[id := Request(user, Arrived)])
    case Load(id) =>
      var user := s.requests[id].user;
      Move(s, id, if user in s.locks then Resolved(s.locks[user]) else Missed)
    case LockCreation(id) => Move(s, id, Creating).(mutex := Some(id))
    case LoadAgain(id) =>
      var user := s.requests[id].user;
      if user in s.locks then Move(s, id, Stored(s.locks[user]))
      else Move(s, id, Made(s.nextLock)).(nextLock := s.nextLock + 1)
    case Store(id) =>
      var lock := s.requests[id].phase.lock;
      Move(s, id, Stored(lock)).(locks := s.locks[s.requests[id].user := lock])
    case UnlockCreation(id) => Move(s, id, Resolved(s.requests[id].phase.lock)).(mutex := None)
    case TryStep(id) =>
      var lock := s.requests[id].phase.lock;
      if lock in s.full then Move(s, id, Rejected(lock))
      else Move(s, id, Holding(lock)).(full := s.full + {lock})
    case UnlockStep(id) =>
      var lock := s.requests[id].phase.lock;
      Move(s, id, Finished(lock)).(full := s.full - {lock})
  }

  /** The state after taking the steps in turn, if each is possible when its turn comes. */
  function Outcome(steps: seq<Step>): Option<State> {
    if steps == [] then Some(INITIAL)
    else
      var before, step := Outcome(steps[..|steps| - 1]), steps[|steps| - 1];
      if before.Some? && Enabled(before.value, step) then Some(Next(before.value, step)) else None
  }

  // ---- what every interleaving keeps ----

  predicate HasLock(phase: Phase) {
    phase.Stored? || phase.Resolved? || phase.Holding? || phase.Rejected? || phase.Finished?
  }

  predicate InCreation(phase: Phase) {
    phase.Creating? || phase.Made? || phase.Stored?
  }

  ghost predicate LocksAgree(s: State) {
    forall id :: id in s.requests && HasLock(s.requests[id].phase) ==>
      s.requests[id].user in s.locks && s.locks[s.requests[id].user] == s.requests[id].phase.lock
  }

  ghost predicate CreationExclusive(s: State) {
    && (forall id :: id in s.requests && InCreation(s.requests[id].phase) ==> s.mutex == Some(id))
    && (s.mutex.Some? ==> s.mutex.value in s.requests && InCreation(s.requests[s.mutex.value].phase))
  }

  ghost predicate MadeIsNew(s: State) {
    forall id :: id in s.requests && s.requests[id].phase.Made? ==>
      var lock := s.requests[id].phase.lock;
      s.requests[id].user !in s.locks && lock < s.nextLock && forall user :: user in s.locks ==> s.locks[user] != lock
  }

  ghost predicate LocksDistinct(s: State) {
    && (forall user :: user in s.locks ==> s.locks[user] < s.nextLock)
    && (forall u, v :: u in s.locks && v in s.locks && u != v ==> s.locks[u] != s.locks[v])
  }

  predicate Holds(s: State, id: RequestId, lock: LockId) {
    InPhase(s, id, Holding(lock))
  }

  /** A channel is full exactly when one request, and only one, holds its lock. */
  ghost predicate FullIffHeld(s: State) {
    && (forall lock :: lock in s.full ==> exists id :: Holds(s, id, lock))
    && (forall id, lock :: Holds(s, id, lock) ==> lock in s.full)
    && (forall id, other, lock :: Holds(s, id, lock) && Holds(s, other, lock) ==> id == other)
  }

  ghost predicate Invariant(s: State) {
    LocksAgree(s) && CreationExclusive(s) && MadeIsNew(s) && LocksDistinct(s) && FullIffHeld(s)
  }

  lemma StepKeepsCreation(s: State, step: Step)
    requires CreationExclusive(s) && Enabled(s, step)
    ensures CreationExclusive(Next(s, step))
  {
  }

  lemma StepKeepsDistinct(s: State, step: Step)
    requires MadeIsNew(s) && LocksDistinct(s) && Enabled(s, step)
    ensures LocksDistinct(Next(s, step))
  {
  }

  lemma StepKeepsMade(s: State, step: Step)
    requires CreationExclusive(s) && MadeIsNew(s) && LocksDistinct(s) && Enabled(s, step)
    ensures MadeIsNew(Next(s, step))
  {
    var t := Next(s, step);
    forall id | id in t.requests && t.requests[id].phase.Made?
      ensures var lock := t.requests[id].phase.lock;
        t.requests[id].user !in t.locks && lock < t.nextLock && forall user :: user in t.locks ==> t.locks[user] != lock
    {
      if id != step.id {
        assert id in s.requests && t.requests[id] == s.requests[id];
      }
    }
  }

  lemma StepKeepsAgreement(s: State, step: Step)
    requires LocksAgree(s) && MadeIsNew(s) && Enabled(s, step)
    ensures LocksAgree(Next(s, step))
  {
    var t := Next(s, step);
    forall id | id in t.requests && HasLock(t.requests[id].phase)
      ensures t.requests[id].user in t.locks && t.locks[t.requests[id].user] == t.requests[id].phase.lock
    {
      if id != step.id {
        assert id in s.requests && t.requests[id] == s.requests[id];
      }
    }
  }

  lemma OthersStay(s: State, step: Step, other: RequestId, lock: LockId)
    requires Enabled(s, step) && other != step.id
    ensures Holds(Next(s, step), other, lock) <==> Holds(s, other, lock)
  {
  }

  lemma TryKeepsHolding(s: State, id: RequestId)
    requires FullIffHeld(s) && Enabled(s, TryStep(id))
    ensures FullIffHeld(Next(s, TryStep(id)))
  {
    var step := TryStep(id);
    var t, mine := Next(s, step), s.requests[id].phase.lock;
    forall other, lock | other != id ensures Holds(t, other, lock) <==> Holds(s, other, lock) {
      OthersStay(s, step, other, lock);
    }
    forall lock | lock in t.full ensures exists h :: Holds(t, h, lock) {
      if lock in s.full {
        var h :| Holds(s, h, lock);
        assert Holds(t, h, lock);
      } else {
        assert Holds(t, id, lock);
      }
    }
  }

  lemma UnlockKeepsHolding(s: State, id: RequestId)
    requires FullIffHeld(s) && Enabled(s, UnlockStep(id))
    ensures FullIffHeld(Next(s, UnlockStep(id)))
  {
    var step := UnlockStep(id);
    var t, mine := Next(s, step), s.requests[id].phase.lock;
    assert Holds(s, id, mine);
    forall other, lock | other != id ensures Holds(t, other, lock) <==> Holds(s, other, lock) {
      OthersStay(s, step, other, lock);
    }
    forall lock ensures !Holds(t, id, lock) {
    }
    forall lock | lock in t.full ensures exists h :: Holds(t, h, lock) {
      var h :| Holds(s, h, lock);
      assert Holds(t, h, lock);
    }
  }

  lemma StepKeepsHolding(s: State, step: Step)
    requires FullIffHeld(s) && Enabled(s, step)
    ensures FullIffHeld(Next(s, step))
  {
    match step {
      case TryStep(id) => TryKeepsHolding(s, id);
      case UnlockStep(id) => UnlockKeepsHolding(s, id);
      case _ =>
        var t := Next(s, step);
        forall other, lock ensures Holds(t, other, lock) <==> Holds(s, other, lock) {
          if other != step.id {
            OthersStay(s, step, other, lock);
          }
        }
    }
  }

  lemma {:induction false} EveryRunKeepsInvariant(steps: seq<Step>)
    requires Outcome(steps).Some?
    ensures Invariant(Outcome(steps).value)
  {
    if steps != [] {
      var front, step := steps[..|steps| - 1], steps[|steps| - 1];
      EveryRunKeepsInvariant(front);
      var s := Outcome(front).value;
      StepKeepsCreation(s, step);
      StepKeepsDistinct(s, step);
      StepKeepsMade(s, step);
      StepKeepsAgreement(s, step);
      StepKeepsHolding(s, step);
    }
  }

  // ---- the promises ----

  /** In every run, two requests that have found their lock have the same lock iff they are of the same user. */
  lemma SameUserSameLock(steps: seq<Step>, a: RequestId, b: RequestId)
    requires Outcome(steps).Some?
    requires var s := Outcome(steps).value;
      && a in s.requests && HasLock(s.requests[a].phase)
      && b in s.requests && HasLock(s.requests[b].phase)
    ensures var s := Outcome(steps).value;
      s.requests[a].phase.lock == s.requests[b].phase.lock <==> s.requests[a].user == s.requests[b].user
  {
    EveryRunKeepsInvariant(steps);
  }

  /** In every run, at most one request of a user is between its TryLock and its Unlock. */
  lemma MutualExclusion(steps: seq<Step>, a: RequestId, b: RequestId)
    requires Outcome(steps).Some?
    requires var s := Outcome(steps).value;
      && a in s.requests && s.requests[a].phase.Holding?
      && b in s.requests && s.requests[b].phase.Holding?
      && s.requests[a].user == s.requests[b].user
    ensures a == b
  {
    EveryRunKeepsInvariant(steps);
    var s := Outcome(steps).value;
    var lock := s.requests[a].phase.lock;
    assert Holds(s, a, lock) && Holds(s, b, lock);
  }

  /** A request is turned away iff, at that moment, another request of the same user holds the lock. */
  lemma RejectedIffUserBusy(steps: seq<Step>, id: RequestId)
    requires Outcome(steps).Some? && Enabled(Outcome(steps).value, TryStep(id))
    ensures var s := Outcome(steps).value;
      Next(s, TryStep(id)).requests[id].phase.Rejected? <==>
      exists other :: other in s.requests && s.requests[other].phase.Holding?
                      && s.requests[other].user == s.requests[id].user
  {
    EveryRunKeepsInvariant(steps);
    var s := Outcome(steps).value;
    var lock := s.requests[id].phase.lock;
    if lock in s.full {
      var other :| Holds(s, other, lock);
      SameUserSameLock(steps, other, id);
    }
    if other :| other in s.requests && s.requests[other].phase.Holding? && s.requests[other].user == s.requests[id].user {
      SameUserSameLock(steps, other, id);
      assert Holds(s, other, lock);
    }
  }

  /** Only the holder empties its channel, it finds the channel full, and every other channel is left alone. */
  lemma OnlyTheHolderReleases(steps: seq<Step>, step: Step, lock: LockId)
    requires Outcome(steps).Some? && Enabled(Outcome(steps).value, step)
    requires var s := Outcome(steps).value; lock in s.full && lock !in Next(s, step).full
    ensures step.UnlockStep? && Holds(Outcome(steps).value, step.id, lock)
    ensures Next(Outcome(steps).value, step).full == Outcome(steps).value.full - {lock}
  {
  }

  lemma UnlockFindsFull(steps: seq<Step>, id: RequestId)
    requires Outcome(steps).Some? && Enabled(Outcome(steps).value, UnlockStep(id))
    ensures var s := Outcome(steps).value; s.requests[id].phase.lock in s.full
  {
    EveryRunKeepsInvariant(steps);
    var s := Outcome(steps).value;
    assert Holds(s, id, s.requests[id].phase.lock);
  }

  /** A lock, once in the map, is never replaced: the second check prevents it. */
  lemma LocksAreNeverReplaced(steps: seq<Step>, step: Step, user: UserId)
    requires Outcome(steps).Some? && Enabled(Outcome(steps).value, step)
    requires user in Outcome(steps).value.locks
    ensures var s := Outcome(steps).value;
      user in Next(s, step).locks && Next(s, step).locks[user] == s.locks[user]
  {
    EveryRunKeepsInvariant(steps);
  }

  predicate Over(phase: Phase) {
    phase.Rejected? || phase.Finished?
  }

  /** No interleaving gets stuck: while some request is not over, some request can take a step. */
  lemma NoDeadlock(steps: seq<Step>, id: RequestId) returns (step: Step)
    requires Outcome(steps).Some?
    requires var s := Outcome(steps).value; id in s.requests && !Over(s.requests[id].phase)
    ensures !step.Arrive? && Enabled(Outcome(steps).value, step)
  {
    EveryRunKeepsInvariant(steps);
    var s := Outcome(steps).value;
    match s.requests[id].phase {
      case Arrived => step := Load(id);
      case Missed =>
        if s.mutex.None? {
          step := LockCreation(id);
        } else {
          var owner := s.mutex.value;
          match s.requests[owner].phase {
            case Creating => step := LoadAgain(owner);
            case Made(_) => step := Store(owner);
            case Stored(_) => step := UnlockCreation(owner);
          }
        }
      case Creating => step := LoadAgain(id);
      case Made(_) => step := Store(id);
      case Stored(_) => step := UnlockCreation(id);
      case Resolved(_) => step := TryStep(id);
      case Holding(_) => step := UnlockStep(id);
    }
  }

  lemma BusyIfTaken(s: State)
    requires Invariant(s)
    ensures s.full != {} || s.mutex.Some? ==> exists id :: id in s.requests && !Over(s.requests[id].phase)
  {
    if s.mutex.Some? {
      var owner := s.mutex.value;
      assert owner in s.requests && !Over(s.requests[owner].phase);
    }
    if lock :| lock in s.full {
      var id :| Holds(s, id, lock);
      assert id in s.requests && !Over(s.requests[id].phase);
    }
    assert (forall lock :: lock !in s.full) ==> s.full == {};
  }

  /** When every request is over, every channel is empty again and the creation mutex is free. */
  lemma AllFreeAtTheEnd(steps: seq<Step>)
    requires Outcome(steps).Some?
    requires var s := Outcome(steps).value; forall id :: id in s.requests ==> Over(s.requests[id].phase)
    ensures Outcome(steps).value.full == {} && Outcome(steps).value.mutex.None?
  {
    EveryRunKeepsInvariant(steps);
    BusyIfTaken(Outcome(steps).value);
  }
}
