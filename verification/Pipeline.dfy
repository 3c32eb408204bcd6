/**
 The daemon's backup loop under concurrent requests: one goroutine per project and any number of HTTP requests,
 interleaved at the granularity of the machine's critical sections. Checks and the actions they guard are
 separate steps. One clock never goes back.
 */
module Pipeline {
  import opened Backoff
  import opened Machine
  import Config

  /** Where a project's goroutine stands between two critical sections. */
  datatype PC =
    | Starting                // before the immediate startup evaluation
    | Idle                    // in the select
    | Watching                // WatchesForChurn said yes, the git oracle is being polled
    | Churned                 // churn seen, AdvanceOnChurn about to read the state
    | Advancing(event: Event) // AdvanceOnChurn chose its event
    | InPipeline              // the state was backing_up, CreateCheckpoint is running
    | Finishing(ok: bool)     // the checkpoint returned, its event is not yet delivered
    | Evaluated               // about to ask whether the state is error
    | Failed                  // the state was error, CanRetry is about to be asked
    | Retrying                // CanRetry said yes, the trigger is not yet delivered

  datatype World = World(names: seq<string>, machines: map<string, Snapshot>, pcs: seq<PC>, clock: int)

  /** What the environment decides at a goroutine's step: which ticker fired, and how the work went. */
  datatype Choice = Choice(pollTick: bool, good: bool, ambient: Ambient)

  datatype Move =
    | Go(i: nat, choice: Choice)
    | BackupRequest(name: string, ambient: Ambient)
    | ResetRequest(name: string, ambient: Ambient)

  predicate WellFormed(w: World) {
    && |w.pcs| == |w.names|
    && forall i :: 0 <= i < |w.names| ==> w.names[i] in w.machines
  }

  predicate Distinct(names: seq<string>) {
    forall i, j :: 0 <= i < j < |names| ==> names[i] != names[j]
  }

  function Start(names: seq<string>, now: int): World {
    World(names, map name | name in names :: Fresh(now), seq(|names|, _ => Starting), now)
  }

  /** The event a goroutine at `pc` is about to deliver to its machine, if any. */
  function Pending(pc: PC, choice: Choice): (e: seq<Event>) {
    match pc
    case Starting => if choice.good then [TriggerBackup] else []
    case Advancing(event) => [event]
    case Finishing(ok) => [if ok then BackupSuccess else BackupFail]
    case Retrying => [TriggerBackup]
    case _ => []
  }

  /** The goroutine's next position, decided by its own machine's state and the environment. */
  function NextPC(pc: PC, s: Snapshot, choice: Choice): PC {
    match pc
    case Starting => Idle
    case Idle =>
      if choice.pollTick then (if s.state in {Fallow, Monitoring} then Watching else Idle)
      else (if s.state == BackingUp then InPipeline else Evaluated)
    case Watching => if choice.good then Churned else Idle
    case Churned =>
      (match s.state
       case Fallow => Advancing(ChurnDetected)
       case Monitoring => Advancing(TriggerBackup)
       case _ => Idle)
    case Advancing(_) => Idle
    case InPipeline => Finishing(choice.good)
    case Finishing(_) => Evaluated
    case Evaluated => if s.state == Error then Failed else Idle
    case Failed => if MayRetry(s, choice.ambient.now) then Retrying else Idle
    case Retrying => Idle
  }

  function MoveTime(m: Move): int {
    match m
    case Go(_, choice) => choice.ambient.now
    case BackupRequest(_, a) => a.now
    case ResetRequest(_, a) => a.now
  }

  predicate Enabled(w: World, m: Move) {
    && w.clock <= MoveTime(m)
    && (m.Go? ==> m.i < |w.pcs|)
  }

  function Deliver(w: World, name: string, es: seq<Event>, a: Ambient): map<string, Snapshot>
    requires name in w.machines
  {
    if es == [] then w.machines else w.machines[name := After(w.machines[name], es[0], a)]
  }

  /** One critical section of one actor. A request for an unknown project touches nothing. */
  function Next(w: World, m: Move): (w': World)
    requires WellFormed(w) && Enabled(w, m)
    ensures WellFormed(w') && w'.names == w.names
  {
    match m
    case Go(i, choice) =>
      var name := w.names[i];
      World(w.names, Deliver(w, name, Pending(w.pcs[i], choice), choice.ambient),
            w.pcs[i := NextPC(w.pcs[i], w.machines[name], choice)], choice.ambient.now)
    case BackupRequest(name, a) =>
      if name in w.machines then w.(machines := Deliver(w, name, [TriggerBackup], a), clock := a.now)
      else w.(clock := a.now)
    case ResetRequest(name, a) =>
      if name in w.machines then w.(machines := Deliver(w, name, [ClearError], a), clock := a.now)
      else w.(clock := a.now)
  }

  /** The HTTP status of a backup or reset request. */
  function Reply(w: World, m: Move): int
    requires !m.Go?
  {
    if m.name !in w.machines then 404
    else if Refuses(w.machines[m.name], if m.BackupRequest? then TriggerBackup else ClearError, m.ambient.now) then 409
    else 200
  }

  /** A run takes each enabled move in turn. */
  ghost predicate IsRun(w: World, moves: seq<Move>, w': World)
    requires WellFormed(w)
    decreases |moves|
  {
    if moves == [] then w' == w
    else Enabled(w, moves[0]) && IsRun(Next(w, moves[0]), moves[1..], w')
  }

  // ---------- The invariant ----------

  /** What a goroutine's position says about its machine, whatever requests came in between. */
  predicate Agrees(pc: PC, s: Snapshot, clock: int) {
    && Sound(s)
    && (pc.InPipeline? || pc.Finishing? ==> s.state == BackingUp)
    && (pc.Watching? || pc.Churned? || pc.Advancing? || pc.Starting? ==> s.state != Error)
    && (pc.Advancing? ==> pc.event == ChurnDetected || pc.event == TriggerBackup)
    && (pc.Retrying? && s.state == Error ==> s.nextRetryAt < clock)
  }

  ghost predicate Inv(w: World) {
    && WellFormed(w) && Distinct(w.names)
    && forall i :: 0 <= i < |w.names| ==> Agrees(w.pcs[i], w.machines[w.names[i]], w.clock)
  }

  lemma GoKeepsInv(w: World, i: nat, choice: Choice)
    requires Inv(w) && Enabled(w, Go(i, choice))
    ensures Inv(Next(w, Go(i, choice)))
  {
    var w' := Next(w, Go(i, choice));
    forall j | 0 <= j < |w.names| ensures Agrees(w'.pcs[j], w'.machines[w.names[j]], w'.clock) {
      if j != i {
        assert w.names[j] != w.names[i];
      }
    }
  }

  lemma RequestKeepsInv(w: World, m: Move)
    requires Inv(w) && !m.Go? && Enabled(w, m)
    ensures Inv(Next(w, m))
  {
  }

  lemma {:induction false} RunKeepsInv(w: World, moves: seq<Move>, w': World)
    requires Inv(w) && IsRun(w, moves, w')
    ensures Inv(w') && w'.names == w.names
    decreases |moves|
  {
    if moves != [] {
      if moves[0].Go? {
        GoKeepsInv(w, moves[0].i, moves[0].choice);
      } else {
        RequestKeepsInv(w, moves[0]);
      }
      RunKeepsInv(Next(w, moves[0]), moves[1..], w');
    }
  }

  /** Reachable from daemon start over uniquely named projects. */
  ghost predicate Reachable(w: World) {
    exists names, now, moves :: Distinct(names) && WellFormed(Start(names, now)) && IsRun(Start(names, now), moves, w)
  }

  lemma ReachableIsSound(w: World)
    requires Reachable(w)
    ensures Inv(w)
  {
    var names, now, moves :| Distinct(names) && WellFormed(Start(names, now)) && IsRun(Start(names, now), moves, w);
    RunKeepsInv(Start(names, now), moves, w);
  }

  // ---------- What it gives ----------

  predicate PipelineRuns(pc: PC) { pc.InPipeline? || pc.Finishing? }

  /**
   From the pipeline check to its final event the machine stays in backing_up, and no other goroutine runs that
   project's pipeline.
   */
  lemma PipelineOwnsItsMachine(w: World, i: nat)
    requires Reachable(w) && WellFormed(w) && i < |w.pcs| && PipelineRuns(w.pcs[i])
    ensures w.names[i] in w.machines && w.machines[w.names[i]].state == BackingUp
    ensures forall j :: 0 <= j < |w.pcs| && w.names[j] == w.names[i] && PipelineRuns(w.pcs[j]) ==> j == i
  {
    ReachableIsSound(w);
  }

  /**
   Every request in every reachable world: unknown projects are answered 404, a trigger inside the backoff 409, all
   others 200; and as long as the machine is backing up, before its pipeline starts as well, a request changes nothing
   but the clock.
   */
  lemma ReplyExactly(w: World, m: Move)
    requires Reachable(w) && WellFormed(w) && Enabled(w, m) && !m.Go?
    ensures Reply(w, m) == 404 <==> m.name !in w.names
    ensures Reply(w, m) == 409 <==>
              && m.name in w.names && m.BackupRequest?
              && w.machines[m.name].state == Error && m.ambient.now < w.machines[m.name].nextRetryAt
    ensures Reply(w, m) in {200, 404, 409}
    ensures Reply(w, m) != 200 ==> Next(w, m) == w.(clock := m.ambient.now)
    ensures m.name in w.names && w.machines[m.name].state == BackingUp ==>
              Reply(w, m) == 200 && Next(w, m) == w.(clock := m.ambient.now)
  {
    ReachableMachines(w);
    if m.name in w.machines {
      assert w.machines[m.name := w.machines[m.name]] == w.machines;
    }
  }

  /** There is a machine for each configured project and no other. */
  lemma ReachableMachines(w: World)
    requires Reachable(w)
    ensures forall n :: n in w.machines <==> n in w.names
  {
    var names, now, moves :| Distinct(names) && WellFormed(Start(names, now)) && IsRun(Start(names, now), moves, w);
    RunKeepsMachines(Start(names, now), moves, w);
  }

  lemma {:induction false} RunKeepsMachines(w: World, moves: seq<Move>, w': World)
    requires WellFormed(w) && IsRun(w, moves, w')
    ensures w'.names == w.names && w'.machines.Keys == w.machines.Keys
    decreases |moves|
  {
    if moves != [] {
      RunKeepsMachines(Next(w, moves[0]), moves[1..], w');
    }
  }

  /** A trigger or a reset that arrives while the pipeline runs is answered 200 and changes nothing but the clock. */
  lemma RequestsAreInertMidPipeline(w: World, i: nat, m: Move)
    requires Reachable(w) && i < |w.pcs| && PipelineRuns(w.pcs[i]) && WellFormed(w) && Enabled(w, m)
    requires !m.Go? && m.name == w.names[i]
    ensures Next(w, m) == w.(clock := m.ambient.now)
    ensures Reply(w, m) == 200
  {
    PipelineOwnsItsMachine(w, i);
    ReplyExactly(w, m);
  }

  /** The event that ends a pipeline always takes effect, on that project's machine and no other. */
  lemma FinalEventTakesEffect(w: World, i: nat, choice: Choice)
    requires Reachable(w) && WellFormed(w) && Enabled(w, Go(i, choice)) && w.pcs[i].Finishing?
    ensures var s, w' := w.machines[w.names[i]], Next(w, Go(i, choice));
            w'.machines == w.machines[w.names[i] :=
              if w.pcs[i].ok then Fresh(choice.ambient.now)
              else Snapshot(Error, s.errorCount + 1, choice.ambient.now, RetryAt(s.errorCount + 1, choice.ambient))]
  {
    ReachableIsSound(w);
    BackingUpIgnoresRequests(w.machines[w.names[i]], if w.pcs[i].ok then BackupSuccess else BackupFail, choice.ambient);
  }

  /**
   No event a goroutine ever delivers is refused: checks made in an earlier critical section still hold when it acts.
   */
  lemma GoroutineIsNeverRefused(w: World, i: nat, choice: Choice, e: Event)
    requires Reachable(w) && WellFormed(w) && Enabled(w, Go(i, choice)) && Pending(w.pcs[i], choice) == [e]
    ensures !Refuses(w.machines[w.names[i]], e, choice.ambient.now)
  {
    ReachableIsSound(w);
    assert Agrees(w.pcs[i], w.machines[w.names[i]], w.clock);
    assert Pending(w.pcs[i], choice)[0] == e;
  }

  /** Every machine a run reaches has an error count that fits its state. */
  lemma MachinesStaySound(w: World, i: nat)
    requires Reachable(w) && i < |w.names|
    ensures w.names[i] in w.machines && Sound(w.machines[w.names[i]])
  {
    ReachableIsSound(w);
  }

  // ---------- What a goroutine gets done, whatever the others do in between ----------

  /** The choices of goroutine `i`'s own moves, in order. */
  function Own(moves: seq<Move>, i: nat): seq<Choice> {
    if moves == [] then []
    else (if moves[0].Go? && moves[0].i == i then [moves[0].choice] else []) + Own(moves[1..], i)
  }

  /** A move of another goroutine or of a request. */
  predicate Foreign(m: Move, i: nat) { m.Go? ==> m.i != i }

  /** A move of another goroutine leaves this one and its machine alone, and so does a request for another project. */
  lemma OthersLeave(w: World, i: nat, m: Move)
    requires Inv(w) && Enabled(w, m) && Foreign(m, i) && i < |w.pcs|
    ensures var w' := Next(w, m);
            && Inv(w') && w'.pcs[i] == w.pcs[i] && w'.clock >= w.clock
            && (m.Go? || m.name != w.names[i] ==> w'.machines[w.names[i]] == w.machines[w.names[i]])
            && (!m.Go? && m.name == w.names[i] ==>
                w'.machines[w.names[i]] ==
                After(w.machines[w.names[i]], if m.BackupRequest? then TriggerBackup else ClearError, m.ambient))
  {
    if m.Go? {
      GoKeepsInv(w, m.i, m.choice);
      assert w.names[m.i] != w.names[i];
    } else {
      RequestKeepsInv(w, m);
    }
  }

  /** The project is to be backed up: it is backing up already, or its error is past the retry time. */
  predicate Due(w: World, i: nat)
    requires WellFormed(w) && i < |w.pcs|
  {
    var s := w.machines[w.names[i]];
    && (s.state == BackingUp || (s.state == Error && s.nextRetryAt < w.clock))
    && !w.pcs[i].Finishing?
  }

  /** How many evaluation steps of its own the goroutine needs at most before it is in the pipeline. */
  function StepsLeft(w: World, i: nat): nat
    requires WellFormed(w) && i < |w.pcs|
  {
    var failed := w.machines[w.names[i]].state == Error;
    match w.pcs[i]
    case Idle => if failed then 5 else 1
    case Evaluated => if failed then 4 else 2
    case Failed => 3
    case Watching => 3
    case InPipeline => 0
    case Finishing(_) => 0
    case _ => 2
  }

  /** Nobody resets the project in between. */
  predicate NoReset(moves: seq<Move>, name: string) {
    forall k :: 0 <= k < |moves| && moves[k].ResetRequest? ==> moves[k].name != name
  }

  /** The goroutine's own moves that are not poll ticks. */
  function Evaluations(moves: seq<Move>, i: nat): nat {
    if moves == [] then 0
    else (if moves[0].Go? && moves[0].i == i && !moves[0].choice.pollTick then 1 else 0) + Evaluations(moves[1..], i)
  }

  /** At some point of the run the goroutine is in its pipeline. */
  ghost predicate EntersPipeline(w: World, moves: seq<Move>, i: nat)
    requires WellFormed(w) && i < |w.pcs|
    decreases |moves|
  {
    || w.pcs[i] == InPipeline
    || (moves != [] && Enabled(w, moves[0]) && EntersPipeline(Next(w, moves[0]), moves[1..], i))
  }

  lemma DueStep(w: World, i: nat, m: Move)
    requires Inv(w) && i < |w.pcs| && Due(w, i) && w.pcs[i] != InPipeline && Enabled(w, m)
    requires m.ResetRequest? ==> m.name != w.names[i]
    ensures var w' := Next(w, m);
            && Inv(w') && w'.names == w.names && |w'.pcs| == |w.pcs| && Due(w', i)
            && StepsLeft(w', i) <= StepsLeft(w, i)
            && (m.Go? && m.i == i && !m.choice.pollTick ==> StepsLeft(w', i) < StepsLeft(w, i))
  {
    if Foreign(m, i) {
      OthersLeave(w, i, m);
    } else {
      GoKeepsInv(w, i, m.choice);
    }
  }

  /**
   Under every interleaving with other goroutines and with requests other than a reset of this project, a project whose
   backup is due enters its pipeline: from error past its retry time within five evaluation steps of its own goroutine.
   */
  lemma {:induction false} DueBackupRuns(w: World, moves: seq<Move>, w': World, i: nat)
    requires Inv(w) && IsRun(w, moves, w') && i < |w.pcs| && Due(w, i)
    requires NoReset(moves, w.names[i]) && Evaluations(moves, i) >= StepsLeft(w, i)
    ensures EntersPipeline(w, moves, i)
    decreases |moves|
  {
    if w.pcs[i] != InPipeline {
      DueStep(w, i, moves[0]);
      assert forall k :: 0 <= k < |moves[1..]| ==> moves[1..][k] == moves[k + 1];
      DueBackupRuns(Next(w, moves[0]), moves[1..], w', i);
    }
  }

  /** The retry promise at the idle goroutine: five evaluations after the retry time have passed, the backup runs. */
  lemma DueRetryIsTaken(w: World, moves: seq<Move>, w': World, i: nat)
    requires Reachable(w) && WellFormed(w) && IsRun(w, moves, w') && i < |w.pcs| && w.pcs[i] == Idle
    requires w.machines[w.names[i]].state == Error && w.machines[w.names[i]].nextRetryAt < w.clock
    requires NoReset(moves, w.names[i]) && Evaluations(moves, i) >= 5
    ensures EntersPipeline(w, moves, i)
  {
    ReachableIsSound(w);
    DueBackupRuns(w, moves, w', i);
  }

  /** A reset brings a project in error back to fallow with a clean record, and changes nothing for any other. */
  lemma ResetClearsErrors(w: World, m: Move)
    requires Reachable(w) && WellFormed(w) && Enabled(w, m) && m.ResetRequest? && m.name in w.names
    ensures Reply(w, m) == 200
    ensures Next(w, m).machines == if w.machines[m.name].state == Error
                                   then w.machines[m.name := Snapshot(Fallow, 0, m.ambient.now, ZERO_TIME)]
                                   else w.machines
  {
    ReachableMachines(w);
    assert w.machines[m.name := w.machines[m.name]] == w.machines;
  }

  /** Churn found at startup sends the project to its backup; without churn the first step changes no machine. */
  lemma StartupEvaluates(w: World, i: nat, choice: Choice)
    requires Reachable(w) && WellFormed(w) && i < |w.pcs| && w.pcs[i] == Starting && Enabled(w, Go(i, choice))
    ensures var w' := Next(w, Go(i, choice));
            && w'.pcs[i] == Idle
            && (choice.good ==> w'.machines[w.names[i]].state == BackingUp)
            && (!choice.good ==> w'.machines == w.machines)
  {
    ReachableIsSound(w);
    TriggerStartsBackup(w.machines[w.names[i]], choice.ambient);
  }

  /**
   The backoff holds under every interleaving: until its retry time a project in error that nobody resets stays exactly
   as it is and its pipeline is not entered, whatever is requested and however often the goroutine evaluates.
   */
  lemma {:induction false} BackoffIsRespected(w: World, moves: seq<Move>, w': World, i: nat)
    requires Inv(w) && IsRun(w, moves, w') && i < |w.pcs| && NoReset(moves, w.names[i])
    requires w.machines[w.names[i]].state == Error
    requires forall k :: 0 <= k < |moves| ==> MoveTime(moves[k]) < w.machines[w.names[i]].nextRetryAt
    ensures !EntersPipeline(w, moves, i)
    ensures w.names[i] in w'.machines && w'.machines[w.names[i]] == w.machines[w.names[i]]
    decreases |moves|
  {
    if moves != [] {
      if Foreign(moves[0], i) {
        OthersLeave(w, i, moves[0]);
      } else {
        GoKeepsInv(w, i, moves[0].choice);
      }
      assert forall k :: 0 <= k < |moves[1..]| ==> moves[1..][k] == moves[k + 1];
      BackoffIsRespected(Next(w, moves[0]), moves[1..], w', i);
    }
  }

  /**
   A pipeline's outcome is delivered by the goroutine's second step from there, whatever comes in between: the machine
   is then fallow with a clean record after a success, in error with one more failure on record otherwise.
   */
  lemma {:induction false} OutcomeIsDelivered(w: World, moves: seq<Move>, last: Choice, w': World, i: nat)
    requires Inv(w) && i < |w.pcs| && IsRun(w, moves + [Go(i, last)], w')
    requires w.pcs[i] == InPipeline && |Own(moves, i)| == 1
    ensures w.names[i] in w'.machines && i < |w'.pcs| && w'.pcs[i] == Evaluated
    ensures var s, s' := w.machines[w.names[i]], w'.machines[w.names[i]];
            && s'.state == (if Own(moves, i)[0].good then Fallow else Error)
            && s'.errorCount == (if Own(moves, i)[0].good then 0 else s.errorCount + 1)
            && s'.lastActivity == last.ambient.now
    decreases |moves|
  {
    var rest := moves[1..] + [Go(i, last)];
    assert (moves + [Go(i, last)])[1..] == rest;
    if Foreign(moves[0], i) {
      OthersLeave(w, i, moves[0]);
      OutcomeIsDelivered(Next(w, moves[0]), moves[1..], last, w', i);
    } else {
      GoKeepsInv(w, i, moves[0].choice);
      assert Own(moves, i) == [moves[0].choice] + Own(moves[1..], i);
      FinishingDelivers(Next(w, moves[0]), moves[1..], last, w', i);
    }
  }

  lemma {:induction false} FinishingDelivers(w: World, moves: seq<Move>, last: Choice, w': World, i: nat)
    requires Inv(w) && i < |w.pcs| && IsRun(w, moves + [Go(i, last)], w')
    requires w.pcs[i].Finishing? && Own(moves, i) == []
    ensures w.names[i] in w'.machines && i < |w'.pcs| && w'.pcs[i] == Evaluated
    ensures var s, s' := w.machines[w.names[i]], w'.machines[w.names[i]];
            && s'.state == (if w.pcs[i].ok then Fallow else Error)
            && s'.errorCount == (if w.pcs[i].ok then 0 else s.errorCount + 1)
            && s'.lastActivity == last.ambient.now
    decreases |moves|
  {
    if moves == [] {
      assert moves + [Go(i, last)] == [Go(i, last)];
      assert [Go(i, last)][1..] == [];
    } else {
      var rest := moves[1..] + [Go(i, last)];
      assert (moves + [Go(i, last)])[1..] == rest;
      OthersLeave(w, i, moves[0]);
      FinishingDelivers(Next(w, moves[0]), moves[1..], last, w', i);
    }
  }

  /**
   A backup request for a known project, answered 200 in any reachable world, leaves its machine backing up; and unless
   a pipeline was just ending, three evaluation steps of the project's goroutine later the pipeline has been entered,
   under every interleaving without a reset.
   */
  lemma AcceptedRequestIsRun(w: World, m: Move, i: nat, moves: seq<Move>, w': World)
    requires Reachable(w) && WellFormed(w) && Enabled(w, m) && m.BackupRequest? && Reply(w, m) == 200
    requires i < |w.pcs| && m.name == w.names[i]
    ensures Next(w, m).machines[w.names[i]].state == BackingUp
    ensures (IsRun(Next(w, m), moves, w') && NoReset(moves, w.names[i]) && Evaluations(moves, i) >= 3
             && !w.pcs[i].Finishing?) ==> EntersPipeline(Next(w, m), moves, i)
  {
    ReachableIsSound(w);
    RequestKeepsInv(w, m);
    TriggerStartsBackup(w.machines[w.names[i]], m.ambient);
    if IsRun(Next(w, m), moves, w') && NoReset(moves, w.names[i]) && Evaluations(moves, i) >= 3
       && !w.pcs[i].Finishing? {
      DueBackupRuns(Next(w, m), moves, w', i);
    }
  }

  /** Nobody asks for a backup of the project in between. */
  predicate NoTrigger(moves: seq<Move>, name: string) {
    forall k :: 0 <= k < |moves| && moves[k].BackupRequest? ==> moves[k].name != name
  }

  /** The goroutine is on its way through one poll that finds churn, with these moves of its own still to come. */
  predicate Polling(pc: PC, s: Snapshot, own: seq<Choice>) {
    && s.state in {Fallow, Monitoring}
    && match pc
       case Idle => |own| == 4 && own[0].pollTick && own[1].good
       case Watching => |own| == 3 && own[0].good
       case Churned => |own| == 2
       case Advancing(e) => |own| == 1 && e == if s.state == Fallow then ChurnDetected else TriggerBackup
       case _ => false
  }

  /** Without moves of its own and without a trigger, a project not in error stays where it is. */
  lemma {:induction false} StaysPut(w: World, moves: seq<Move>, w': World, i: nat)
    requires Inv(w) && IsRun(w, moves, w') && i < |w.pcs| && Own(moves, i) == [] && NoTrigger(moves, w.names[i])
    requires w.machines[w.names[i]].state != Error
    ensures w'.names == w.names && |w'.pcs| == |w.pcs| && WellFormed(w')
    ensures w'.pcs[i] == w.pcs[i] && w'.machines[w.names[i]] == w.machines[w.names[i]]
    decreases |moves|
  {
    if moves != [] {
      OthersLeave(w, i, moves[0]);
      assert forall k :: 0 <= k < |moves[1..]| ==> moves[1..][k] == moves[k + 1];
      StaysPut(Next(w, moves[0]), moves[1..], w', i);
    }
  }

  lemma PollStep(w: World, i: nat, own: seq<Choice>)
    requires Inv(w) && i < |w.pcs| && own != [] && Enabled(w, Go(i, own[0]))
    requires Polling(w.pcs[i], w.machines[w.names[i]], own)
    ensures var w', s := Next(w, Go(i, own[0])), w.machines[w.names[i]];
            && Inv(w') && |w'.pcs| == |w.pcs|
            && if w.pcs[i].Advancing? then
                 && own[1..] == [] && w'.pcs[i] == Idle
                 && w'.machines[w.names[i]].state == if s.state == Fallow then Monitoring else BackingUp
               else Polling(w'.pcs[i], w'.machines[w.names[i]], own[1..]) && w'.machines[w.names[i]] == s
  {
    GoKeepsInv(w, i, own[0]);
  }

  /**
   One poll that finds churn, under every interleaving with other goroutines and with any requests but a trigger of this
   project: fallow becomes monitoring, monitoring becomes backing up.
   */
  lemma {:induction false} ChurnAdvances(w: World, moves: seq<Move>, w': World, i: nat)
    requires Inv(w) && IsRun(w, moves, w') && i < |w.pcs| && NoTrigger(moves, w.names[i])
    requires Polling(w.pcs[i], w.machines[w.names[i]], Own(moves, i))
    ensures w'.names == w.names && |w'.pcs| == |w.pcs| && WellFormed(w') && w'.pcs[i] == Idle
    ensures w'.machines[w.names[i]].state == if w.machines[w.names[i]].state == Fallow then Monitoring else BackingUp
    decreases |moves|
  {
    var m, next := moves[0], Next(w, moves[0]);
    assert forall k :: 0 <= k < |moves[1..]| ==> moves[1..][k] == moves[k + 1];
    if Foreign(m, i) {
      OthersLeave(w, i, m);
      ChurnAdvances(next, moves[1..], w', i);
    } else {
      assert Own(moves, i) == [m.choice] + Own(moves[1..], i);
      assert Own(moves[1..], i) == Own(moves, i)[1..];
      PollStep(w, i, Own(moves, i));
      if w.pcs[i].Advancing? {
        StaysPut(next, moves[1..], w', i);
      } else {
        ChurnAdvances(next, moves[1..], w', i);
      }
    }
  }

  /** No own move at startup or while polling finds churn. */
  ghost predicate FindsNoChurn(w: World, moves: seq<Move>, i: nat)
    requires WellFormed(w) && i < |w.pcs|
    decreases |moves|
  {
    moves != [] && Enabled(w, moves[0]) ==>
      && (moves[0].Go? && moves[0].i == i && w.pcs[i] in {Starting, Watching} ==> !moves[0].choice.good)
      && FindsNoChurn(Next(w, moves[0]), moves[1..], i)
  }

  /** The goroutine is not on its way to deliver anything. */
  predicate AtRest(pc: PC) { pc in {Starting, Idle, Watching, Evaluated} }

  lemma RestStep(w: World, i: nat, m: Move)
    requires Inv(w) && i < |w.pcs| && Enabled(w, m) && AtRest(w.pcs[i])
    requires w.machines[w.names[i]].state in {Fallow, Monitoring}
    requires m.BackupRequest? ==> m.name != w.names[i]
    requires m.Go? && m.i == i && w.pcs[i] in {Starting, Watching} ==> !m.choice.good
    ensures var w' := Next(w, m);
            && Inv(w') && w'.names == w.names && |w'.pcs| == |w.pcs|
            && AtRest(w'.pcs[i]) && w'.machines[w.names[i]] == w.machines[w.names[i]]
  {
    if Foreign(m, i) {
      OthersLeave(w, i, m);
    } else {
      GoKeepsInv(w, i, m.choice);
    }
  }

  /**
   An unchanged project is left alone, under every interleaving with other goroutines and with any requests but a
   trigger of this project: as long as no poll finds churn its machine stays exactly as it is, and its pipeline is not
   entered.
   */
  lemma {:induction false} QuietProjectRests(w: World, moves: seq<Move>, w': World, i: nat)
    requires Inv(w) && IsRun(w, moves, w') && i < |w.pcs| && AtRest(w.pcs[i])
    requires w.machines[w.names[i]].state in {Fallow, Monitoring}
    requires NoTrigger(moves, w.names[i]) && FindsNoChurn(w, moves, i)
    ensures !EntersPipeline(w, moves, i)
    ensures w.names[i] in w'.machines && w'.machines[w.names[i]] == w.machines[w.names[i]]
    decreases |moves|
  {
    if moves != [] {
      RestStep(w, i, moves[0]);
      assert forall k :: 0 <= k < |moves[1..]| ==> moves[1..][k] == moves[k + 1];
      QuietProjectRests(Next(w, moves[0]), moves[1..], w', i);
    }
  }

  // ---------- Why the names must be unique ----------

  function ProjectNames(ps: seq<Config.ProjectConfig>): (names: seq<string>)
    ensures |names| == |ps| && forall i :: 0 <= i < |ps| ==> names[i] == ps[i].name
  {
    seq(|ps|, i requires 0 <= i < |ps| => ps[i].name)
  }

  /** Whatever was configured, the validated projects the daemon starts its goroutines for have distinct names. */
  lemma LoadedProjectsStartDistinct(configured: seq<Config.ProjectConfig>, now: int)
    ensures var names := ProjectNames(Config.Kept(configured));
            Distinct(names) && WellFormed(Start(names, now)) && Reachable(Start(names, now))
  {
    Config.KeptIsUniqueAndSound(configured);
    var names := ProjectNames(Config.Kept(configured));
    assert IsRun(Start(names, now), [], Start(names, now));
  }

  /** No two goroutines run the pipeline of one machine at once. */
  ghost predicate OneOwner(w: World) {
    forall i, j :: 0 <= i < j < |w.pcs| && j < |w.names| && w.names[i] == w.names[j] ==>
      !(PipelineRuns(w.pcs[i]) && PipelineRuns(w.pcs[j]))
  }

  /** Every run from daemon start keeps the pipelines apart. */
  ghost predicate AlwaysOneOwner(names: seq<string>) {
    forall now, moves, w :: WellFormed(Start(names, now)) && IsRun(Start(names, now), moves, w) ==> OneOwner(w)
  }

  lemma OneMoreMove(w: World, m: Move, rest: seq<Move>, w': World)
    requires WellFormed(w) && Enabled(w, m) && IsRun(Next(w, m), rest, w')
    ensures IsRun(w, [m] + rest, w')
  {
    assert ([m] + rest)[1..] == rest;
  }

  /** With a repeated project name two goroutines reach the pipeline of one machine at once. */
  lemma DuplicateNamesShareAPipeline(names: seq<string>, i: nat, j: nat) returns (moves: seq<Move>, w: World)
    requires i < j < |names| && names[i] == names[j]
    ensures WellFormed(Start(names, 0)) && IsRun(Start(names, 0), moves, w)
    ensures |w.pcs| == |names| && w.names == names && w.pcs[i] == InPipeline && w.pcs[j] == InPipeline
  {
    var c := Choice(false, true, Ambient(0, 0, 0));
    var w0 := Start(names, 0);
    var w1 := Next(w0, Go(i, c));
    var w2 := Next(w1, Go(j, c));
    var w3 := Next(w2, Go(i, c));
    w := Next(w3, Go(j, c));
    OneMoreMove(w3, Go(j, c), [], w);
    OneMoreMove(w2, Go(i, c), [Go(j, c)], w);
    OneMoreMove(w1, Go(j, c), [Go(i, c)] + [Go(j, c)], w);
    OneMoreMove(w0, Go(i, c), [Go(j, c)] + ([Go(i, c)] + [Go(j, c)]), w);
    moves := [Go(i, c)] + ([Go(j, c)] + ([Go(i, c)] + [Go(j, c)]));
  }

  /** Exactly when no run of the daemon ever has two pipelines on one machine: when the names are distinct. */
  lemma OneOwnerWhen(names: seq<string>)
    ensures AlwaysOneOwner(names) <==> Distinct(names)
  {
    if Distinct(names) {
      forall now, moves, w | WellFormed(Start(names, now)) && IsRun(Start(names, now), moves, w) ensures OneOwner(w) {
        assert Reachable(w);
        RunKeepsInv(Start(names, now), moves, w);
      }
    } else {
      var i, j :| 0 <= i < j < |names| && names[i] == names[j];
      var moves, w := DuplicateNamesShareAPipeline(names, i, j);
      assert !OneOwner(w);
    }
  }
}
