/**
 The backup state machine of one project. Each method is one critical section; the clock reading, the jitter
 and the platform's out-of-range conversion are parameters. Instants are integer nanoseconds.
 */
module Machine {
  import opened Backoff

  /** The zero time.Time, which an idle machine carries as its retry time. */
  const ZERO_TIME := 0

  datatype State = Fallow | Monitoring | BackingUp | Error
  datatype Event = ChurnDetected | TriggerBackup | BackupSuccess | BackupFail | ClearError | Unknown(name: string)

  datatype Snapshot = Snapshot(state: State, errorCount: nat, lastActivity: int, nextRetryAt: int)

  /** One call's surroundings: the clock, 0 to 59 seconds of jitter, and an unrepresentable doubling. */
  datatype Ambient = Ambient(now: int, jitterSeconds: int, platform: int)

  predicate Plausible(a: Ambient) { 0 <= a.jitterSeconds < 60 }

  function RetryAt(count: nat, a: Ambient): int {
    a.now + BaseWait(count, a.platform) + a.jitterSeconds * SECOND
  }

  // ---------- The intended machine: a table of edges ----------

  /** Where an event leads from a state, apart from the backoff; None means the event changes nothing there. */
  function Edge(s: State, e: Event): (target: State) {
    match (s, e)
    case (Fallow, ChurnDetected) => Monitoring
    case (Fallow, TriggerBackup) => BackingUp
    case (Monitoring, TriggerBackup) => BackingUp
    case (Error, TriggerBackup) => BackingUp
    case (BackingUp, BackupSuccess) => Fallow
    case (BackingUp, BackupFail) => Error
    case (Error, ClearError) => Fallow
    case (_, _) => s
  }

  /** An event is refused when it is unknown, or triggers a backup inside the backoff. */
  predicate Refuses(s: Snapshot, e: Event, now: int) {
    e.Unknown? || (e == TriggerBackup && s.state == Error && now < s.nextRetryAt)
  }

  /** The machine after one event: move along the edge, and keep the books of the edge taken. */
  function After(s: Snapshot, e: Event, a: Ambient): Snapshot {
    var target := Edge(s.state, e);
    if Refuses(s, e, a.now) || target == s.state then s
    else
      var moved := s.(state := target, lastActivity := a.now);
      if target == Error then moved.(errorCount := s.errorCount + 1, nextRetryAt := RetryAt(s.errorCount + 1, a))
      else if target == Fallow then moved.(errorCount := 0, nextRetryAt := ZERO_TIME)
      else moved
  }

  function Fresh(now: int): Snapshot { Snapshot(Fallow, 0, now, ZERO_TIME) }

  predicate MayRetry(s: Snapshot, now: int) { s.state != Error || s.nextRetryAt < now }

  class Machine {
    var currentState: State
    var errorCount: nat
    var lastActivity: int
    var nextRetryAt: int

    function Snap(): Snapshot reads this { Snapshot(currentState, errorCount, lastActivity, nextRetryAt) }

    constructor (now: int)
      ensures Snap() == Fresh(now)
    {
      currentState := Fallow;
      errorCount := 0;
      lastActivity := now;
      nextRetryAt := ZERO_TIME;
    }

    method Transition(e: Event, a: Ambient) returns (ok: bool)
      modifies this
      ensures ok <==> !e.Unknown? && !(e == TriggerBackup && old(currentState) == Error && a.now < old(nextRetryAt))
      ensures ok && e == TriggerBackup ==> currentState == BackingUp
      ensures Snap() == After(old(Snap()), e, a)
    {
      var prevState := currentState;
      match e {
        case ChurnDetected =>
          if currentState == Fallow {
            currentState := Monitoring;
          }
        case TriggerBackup =>
          if currentState == Fallow || currentState == Monitoring || currentState == Error {
            if currentState == Error && a.now < nextRetryAt {
              return false;
            }
            currentState := BackingUp;
          }
        case BackupSuccess =>
          if currentState == BackingUp {
            currentState := Fallow;
            errorCount := 0;
            nextRetryAt := ZERO_TIME;
          }
        case BackupFail =>
          if currentState == BackingUp {
            currentState := Error;
            errorCount := errorCount + 1;
            var baseWait := Wrap64(MINUTE * Doubling(errorCount, a.platform));
            if baseWait > HOUR {
              baseWait := HOUR;
            }
            nextRetryAt := a.now + baseWait + a.jitterSeconds * SECOND;
          }
        case ClearError =>
          if currentState == Error {
            currentState := Fallow;
            errorCount := 0;
            nextRetryAt := ZERO_TIME;
          }
        case Unknown(_) =>
          return false;
      }
      if prevState != currentState {
        lastActivity := a.now;
      }
      return true;
    }

    method CanRetry(now: int) returns (r: bool)
      ensures r <==> currentState != Error || nextRetryAt < now
      ensures r == MayRetry(Snap(), now)
    {
      if currentState != Error {
        return true;
      }
      return now > nextRetryAt;
    }

    method WatchesForChurn() returns (r: bool)
      ensures r <==> currentState == Fallow || currentState == Monitoring
    {
      match currentState {
        case Fallow => return true;
        case Monitoring => return true;
        case _ => return false;
      }
    }

    /** Undisturbed, churn advances fallow to monitoring and monitoring to backing up, and is never refused. */
    method AdvanceOnChurn(a: Ambient) returns (ok: bool)
      modifies this
      ensures ok
      ensures Snap() == match old(currentState)
                        case Fallow => old(Snap()).(state := Monitoring, lastActivity := a.now)
                        case Monitoring => old(Snap()).(state := BackingUp, lastActivity := a.now)
                        case _ => old(Snap())
    {
      match currentState {
        case Fallow => ok := Transition(ChurnDetected, a);
        case Monitoring => ok := Transition(TriggerBackup, a);
        case _ => return true;
      }
    }
  }

  // ---------- Every event sequence ----------

  datatype Occurrence = Occurrence(event: Event, ambient: Ambient)

  /** The states a machine goes through, starting from `s`. */
  function History(s: Snapshot, os: seq<Occurrence>): (h: seq<Snapshot>)
    ensures |h| == |os| + 1 && h[0] == s
  {
    if os == [] then [s]
    else
      var h := History(s, os[..|os| - 1]);
      h + [After(h[|h| - 1], os[|os| - 1].event, os[|os| - 1].ambient)]
  }

  function Final(s: Snapshot, os: seq<Occurrence>): Snapshot {
    var h := History(s, os);
    h[|h| - 1]
  }

  /** Failures since the last success or clear, read off the observed states only. */
  function Streak(h: seq<Snapshot>): nat {
    if |h| < 2 then 0
    else
      var from, to := h[|h| - 2].state, h[|h| - 1].state;
      var before := Streak(h[..|h| - 1]);
      if from == BackingUp && to == Error then before + 1
      else if from != Fallow && to == Fallow then 0
      else before
  }

  /** What is true of a machine after every event sequence. */
  predicate Sound(s: Snapshot) {
    && (s.state == Fallow || s.state == Monitoring ==> s.errorCount == 0 && s.nextRetryAt == ZERO_TIME)
    && (s.state == Error ==> s.errorCount >= 1)
  }

  lemma AfterIsSound(s: Snapshot, e: Event, a: Ambient)
    requires Sound(s)
    ensures Sound(After(s, e, a))
  {
  }

  lemma LastOfHistory(s: Snapshot, os: seq<Occurrence>)
    requires os != []
    ensures History(s, os)[..|os|] == History(s, os[..|os| - 1])
    ensures Final(s, os) == After(Final(s, os[..|os| - 1]), os[|os| - 1].event, os[|os| - 1].ambient)
  {
  }

  /** The error count is exactly the number of failures since the last success or clear. */
  lemma {:induction false} ErrorCountIsStreak(now: int, os: seq<Occurrence>)
    ensures Final(Fresh(now), os).errorCount == Streak(History(Fresh(now), os))
    ensures Sound(Final(Fresh(now), os))
  {
    if os != [] {
      LastOfHistory(Fresh(now), os);
      ErrorCountIsStreak(now, os[..|os| - 1]);
      AfterIsSound(Final(Fresh(now), os[..|os| - 1]), os[|os| - 1].event, os[|os| - 1].ambient);
    }
  }

  /** From every state a trigger that is not refused starts the backup; only a machine inside its backoff refuses. */
  lemma TriggerStartsBackup(s: Snapshot, a: Ambient)
    ensures Refuses(s, TriggerBackup, a.now) <==> s.state == Error && a.now < s.nextRetryAt
    ensures !Refuses(s, TriggerBackup, a.now) ==> After(s, TriggerBackup, a).state == BackingUp
    ensures After(s, TriggerBackup, a).state == BackingUp ==>
              After(s, TriggerBackup, a) ==
              if s.state == BackingUp then s else s.(state := BackingUp, lastActivity := a.now)
  {
  }

  /** What each new state says about the event that led there, and all that it leaves in the books. */
  lemma ArrivalsAre(s: Snapshot, e: Event, a: Ambient)
    requires After(s, e, a).state != s.state
    ensures match After(s, e, a).state
            case Fallow =>
              && ((s.state == BackingUp && e == BackupSuccess) || (s.state == Error && e == ClearError))
              && After(s, e, a) == Snapshot(Fallow, 0, a.now, ZERO_TIME)
            case Monitoring =>
              && s.state == Fallow && e == ChurnDetected
              && After(s, e, a) == s.(state := Monitoring, lastActivity := a.now)
            case BackingUp => e == TriggerBackup
            case Error => s.state == BackingUp && e == BackupFail
  {
  }

  /** Only a due trigger leads from error to backing up, and only a clear leads from error to fallow. */
  lemma LeavingError(s: Snapshot, e: Event, a: Ambient)
    requires s.state == Error
    ensures After(s, e, a).state == BackingUp <==> e == TriggerBackup && s.nextRetryAt <= a.now
    ensures After(s, e, a).state == Fallow <==> e == ClearError
    ensures After(s, e, a).state in {BackingUp, Fallow} || After(s, e, a) == s
  {
  }

  /** A refused event changes nothing; an accepted one that moves the machine stamps the activity. */
  lemma RefusedChangesNothing(s: Snapshot, e: Event, a: Ambient)
    ensures Refuses(s, e, a.now) ==> After(s, e, a) == s
    ensures After(s, e, a).state != s.state ==> After(s, e, a).lastActivity == a.now
    ensures After(s, e, a).state == s.state ==> After(s, e, a) == s
  {
  }

  /** When the machine last changed its state, read off the observed states only. */
  function LastChange(now: int, h: seq<Snapshot>, os: seq<Occurrence>): int
    requires |h| == |os| + 1
  {
    var n := |os|;
    if n == 0 then now
    else if h[n].state != h[n - 1].state then os[n - 1].ambient.now
    else LastChange(now, h[..n], os[..n - 1])
  }

  /** The activity a machine reports is the instant of its last change of state, over every event sequence. */
  lemma {:induction false} ActivityIsLastChange(now: int, os: seq<Occurrence>)
    ensures Final(Fresh(now), os).lastActivity == LastChange(now, History(Fresh(now), os), os)
  {
    if os != [] {
      var n := |os| - 1;
      LastOfHistory(Fresh(now), os);
      ActivityIsLastChange(now, os[..n]);
      RefusedChangesNothing(Final(Fresh(now), os[..n]), os[n].event, os[n].ambient);
    }
  }

  lemma {:induction false} FinalConcat(s: Snapshot, a: seq<Occurrence>, b: seq<Occurrence>)
    ensures Final(s, a + b) == Final(Final(s, a), b)
  {
    if b == [] {
      assert a + b == a;
    } else {
      var n := |b| - 1;
      assert (a + b)[..|a + b| - 1] == a + b[..n];
      FinalConcat(s, a, b[..n]);
      LastOfHistory(s, a + b);
      LastOfHistory(Final(s, a), b);
    }
  }

  /** A refused event can be struck from any history: everything after it comes out the same. */
  lemma RefusalLeavesNoTrace(s: Snapshot, before: seq<Occurrence>, o: Occurrence, after: seq<Occurrence>)
    requires Refuses(Final(s, before), o.event, o.ambient.now)
    ensures Final(s, before + [o] + after) == Final(s, before + after)
  {
    FinalConcat(s, before + [o], after);
    FinalConcat(s, before, [o]);
    FinalConcat(s, before, after);
    LastOfHistory(Final(s, before), [o]);
    assert [o][..0] == [];
    RefusedChangesNothing(Final(s, before), o.event, o.ambient);
  }

  /** While backing up, only the pipeline's own outcome matters: everything else is accepted and inert. */
  lemma BackingUpIgnoresRequests(s: Snapshot, e: Event, a: Ambient)
    requires s.state == BackingUp && !e.Unknown?
    ensures !Refuses(s, e, a.now)
    ensures e != BackupSuccess && e != BackupFail ==> After(s, e, a) == s
    ensures e == BackupSuccess ==> After(s, e, a) == Fresh(a.now)
    ensures e == BackupFail ==>
              After(s, e, a) == Snapshot(Error, s.errorCount + 1, a.now, RetryAt(s.errorCount + 1, a))
  {
  }

  /** Once CanRetry has said yes, a trigger at any later instant is accepted and starts the backup. */
  lemma CanRetryIsKept(s: Snapshot, checkedAt: int, a: Ambient)
    requires MayRetry(s, checkedAt) && checkedAt <= a.now
    ensures !Refuses(s, TriggerBackup, a.now) && After(s, TriggerBackup, a).state == BackingUp
  {
  }

  /** The boundary instant: only then, in error, is the trigger already accepted when CanRetry still says no. */
  lemma RetryBoundary(s: Snapshot, a: Ambient)
    ensures !MayRetry(s, a.now) && !Refuses(s, TriggerBackup, a.now) <==> s.state == Error && a.now == s.nextRetryAt
    ensures MayRetry(s, a.now) ==> !Refuses(s, TriggerBackup, a.now)
  {
  }

  /** No events short of a clear bring a machine out of error before its retry time. */
  lemma {:induction false} BackoffHolds(s: Snapshot, os: seq<Occurrence>)
    requires s.state == Error
    requires forall i :: 0 <= i < |os| ==> os[i].event != ClearError && os[i].ambient.now < s.nextRetryAt
    ensures Final(s, os) == s
  {
    if os != [] {
      LastOfHistory(s, os);
      BackoffHolds(s, os[..|os| - 1]);
    }
  }

  /**
   After the n-th consecutive failure, n at most 27, no backup starts for min(2^n, 60) minutes unless the error is
   cleared.
   */
  lemma FailureKeepsBackoff(s: Snapshot, a: Ambient, os: seq<Occurrence>)
    requires s.state == BackingUp && s.errorCount < 27 && Plausible(a)
    requires forall i :: 0 <= i < |os| ==>
               os[i].event != ClearError && os[i].ambient.now < a.now + Intended(s.errorCount + 1)
    ensures Final(After(s, BackupFail, a), os) == After(s, BackupFail, a)
    ensures After(s, BackupFail, a).state == Error
  {
    BackoffIsIntended(s.errorCount + 1, a.platform);
    BackoffHolds(After(s, BackupFail, a), os);
  }

  /** A trigger is accepted again exactly from the intended wait and the jitter after the failure on. */
  lemma RetryAcceptedExactly(s: Snapshot, a: Ambient, b: Ambient)
    requires s.state == BackingUp && s.errorCount < 27
    ensures After(After(s, BackupFail, a), TriggerBackup, b).state == BackingUp <==>
            a.now + Intended(s.errorCount + 1) + a.jitterSeconds * 1_000_000_000 <= b.now
  {
    BackoffIsIntended(s.errorCount + 1, a.platform);
  }

  /** At the 28th consecutive failure the retry time is already past: the next trigger is accepted at once. */
  lemma TwentyEighthFailureRetriesAtOnce(s: Snapshot, a: Ambient, b: Ambient)
    requires s.state == BackingUp && s.errorCount == 27 && Plausible(a) && a.now <= b.now
    ensures After(After(s, BackupFail, a), TriggerBackup, b).state == BackingUp
  {
    WrappedWaitAt28(a.platform);
  }

  lemma WrappedWaitAt28(platform: int)
    ensures BaseWait(28, platform) < -HOUR
  {
    Powers();
    assert Pow2(28) == 0x1000_0000 by { Pow2Add(27, 1); }
  }
}
