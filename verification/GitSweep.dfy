/**
 The concurrent /git sweep: the caller spawns one goroutine per project, a semaphore of eight slots bounds how many
 read at once, each writes its own result slot, and the caller sorts once all are done. Every step is one actor's.
 What a read returns, a timeout included, is a given of the project's index.
 */
module GitSweep {
  import opened Ordering
  import opened Sequences

  const MAX_CONCURRENT_COLLECT := 8

  datatype ProjectGit<G> = ProjectGit(name: string, git: G)

  datatype PC = Unspawned | Queued | Holding | Wrote | Released | Exited

  datatype Slot<G> = Blank | Filled(value: ProjectGit<G>)

  /** `spawned` is the caller's loop index, `sem` the semaphore channel's length, `wg` the wait group's counter. */
  datatype Sweep<G> = Sweep(spawned: nat, sem: nat, wg: nat, pcs: seq<PC>, out: seq<Slot<G>>, writes: seq<nat>)

  datatype Move = Spawn | Acquire(i: nat) | Write(i: nat) | Release(i: nat) | Finish(i: nat)

  function Start<G>(n: nat): Sweep<G> {
    Sweep(0, 0, 0, seq(n, _ => Unspawned), seq(n, _ => Blank), seq(n, _ => 0))
  }

  predicate Enabled<G>(s: Sweep<G>, m: Move) {
    match m
    case Spawn => s.spawned < |s.pcs|
    case Acquire(i) => i < |s.pcs| && s.pcs[i] == Queued && s.sem < MAX_CONCURRENT_COLLECT
    case Write(i) => i < |s.pcs| && s.pcs[i] == Holding
    case Release(i) => i < |s.pcs| && s.pcs[i] == Wrote && s.sem > 0
    case Finish(i) => i < |s.pcs| && s.pcs[i] == Released && s.wg > 0
  }

  predicate Shaped<G>(s: Sweep<G>) { |s.out| == |s.pcs| == |s.writes| && s.spawned <= |s.pcs| }

  /** The deferred calls run last in, first out: the semaphore slot is released, then the wait group is told. */
  function Next<G>(s: Sweep<G>, m: Move, results: seq<ProjectGit<G>>): (t: Sweep<G>)
    requires Shaped(s) && Enabled(s, m) && |results| == |s.pcs|
    ensures Shaped(t) && |t.pcs| == |s.pcs|
  {
    match m
    case Spawn => s.(spawned := s.spawned + 1, wg := s.wg + 1, pcs := s.pcs[s.spawned := Queued])
    case Acquire(i) => s.(sem := s.sem + 1, pcs := s.pcs[i := Holding])
    case Write(i) =>
      s.(pcs := s.pcs[i := Wrote], out := s.out[i := Filled(results[i])], writes := s.writes[i := s.writes[i] + 1])
    case Release(i) => s.(sem := s.sem - 1, pcs := s.pcs[i := Released])
    case Finish(i) => s.(wg := s.wg - 1, pcs := s.pcs[i := Exited])
  }

  ghost predicate IsRun<G>(s: Sweep<G>, moves: seq<Move>, results: seq<ProjectGit<G>>, t: Sweep<G>)
    requires Shaped(s) && |results| == |s.pcs|
    decreases |moves|
  {
    if moves == [] then t == s
    else Enabled(s, moves[0]) && IsRun(Next(s, moves[0], results), moves[1..], results, t)
  }

  /** The caller's wait returns: everything was spawned and the wait group is at zero. */
  predicate Complete<G>(s: Sweep<G>) { s.spawned == |s.pcs| && s.wg == 0 }

  // ---------- Counting positions ----------

  predicate HoldsSlot(pc: PC) { pc == Holding || pc == Wrote }

  predicate Running(pc: PC) { pc == Queued || pc == Released || HoldsSlot(pc) }

  function Count(pcs: seq<PC>, which: PC -> bool): nat {
    if pcs == [] then 0 else (if which(pcs[0]) then 1 else 0) + Count(pcs[1..], which)
  }

  lemma {:induction false} CountUpdate(pcs: seq<PC>, i: nat, pc: PC, which: PC -> bool)
    requires i < |pcs|
    ensures Count(pcs[i := pc], which) ==
            Count(pcs, which) - (if which(pcs[i]) then 1 else 0) + (if which(pc) then 1 else 0)
  {
    if i > 0 {
      assert pcs[i := pc][1..] == pcs[1..][i - 1 := pc];
      CountUpdate(pcs[1..], i - 1, pc, which);
    } else {
      assert pcs[0 := pc][1..] == pcs[1..];
    }
  }

  lemma {:induction false} CountZero(pcs: seq<PC>, which: PC -> bool)
    ensures Count(pcs, which) == 0 <==> forall i :: 0 <= i < |pcs| ==> !which(pcs[i])
  {
    if pcs != [] {
      CountZero(pcs[1..], which);
      assert forall i :: 1 <= i < |pcs| ==> pcs[i] == pcs[1..][i - 1];
      assert forall i :: 0 <= i < |pcs[1..]| ==> pcs[1..][i] == pcs[i + 1];
    }
  }

  // ---------- The invariant ----------

  ghost predicate Inv<G>(s: Sweep<G>, results: seq<ProjectGit<G>>) {
    && Shaped(s) && |results| == |s.pcs|
    && s.sem == Count(s.pcs, HoldsSlot) && s.sem <= MAX_CONCURRENT_COLLECT
    && s.wg == Count(s.pcs, Running)
    && forall i :: 0 <= i < |s.pcs| ==> SlotInv(s.pcs[i], i < s.spawned, s.writes[i], s.out[i], results[i])
  }

  ghost predicate SlotInv<G>(pc: PC, spawned: bool, writes: nat, slot: Slot<G>, result: ProjectGit<G>) {
    && (pc == Unspawned <==> !spawned)
    && writes == (if pc in {Wrote, Released, Exited} then 1 else 0)
    && slot == (if writes == 0 then Blank else Filled(result))
  }

  lemma StartInv<G>(results: seq<ProjectGit<G>>)
    ensures Inv(Start(|results|), results)
  {
    CountZero(seq(|results|, _ => Unspawned), HoldsSlot);
    CountZero(seq(|results|, _ => Unspawned), Running);
  }

  lemma StepKeepsInv<G>(s: Sweep<G>, m: Move, results: seq<ProjectGit<G>>)
    requires Inv(s, results) && Enabled(s, m)
    ensures Inv(Next(s, m, results), results)
  {
    var i := if m.Spawn? then s.spawned else m.i;
    var pc := Next(s, m, results).pcs[i];
    CountUpdate(s.pcs, i, pc, HoldsSlot);
    CountUpdate(s.pcs, i, pc, Running);
    StepKeepsSlots(s, m, results);
  }

  lemma StepKeepsSlots<G>(s: Sweep<G>, m: Move, results: seq<ProjectGit<G>>)
    requires Inv(s, results) && Enabled(s, m)
    ensures var t := Next(s, m, results);
            forall j :: 0 <= j < |t.pcs| ==> SlotInv(t.pcs[j], j < t.spawned, t.writes[j], t.out[j], results[j])
  {
    var i, t := if m.Spawn? then s.spawned else m.i, Next(s, m, results);
    forall j | 0 <= j < |t.pcs| ensures SlotInv(t.pcs[j], j < t.spawned, t.writes[j], t.out[j], results[j]) {
      assert SlotInv(s.pcs[j], j < s.spawned, s.writes[j], s.out[j], results[j]);
      assert SlotInv(s.pcs[i], i < s.spawned, s.writes[i], s.out[i], results[i]);
    }
  }

  lemma {:induction false} RunKeepsInv<G>(s: Sweep<G>, moves: seq<Move>, results: seq<ProjectGit<G>>, t: Sweep<G>)
    requires Inv(s, results) && IsRun(s, moves, results, t)
    ensures Inv(t, results)
    decreases |moves|
  {
    if moves != [] {
      StepKeepsInv(s, moves[0], results);
      RunKeepsInv(Next(s, moves[0], results), moves[1..], results, t);
    }
  }

  ghost predicate Reachable<G>(s: Sweep<G>, results: seq<ProjectGit<G>>) {
    exists moves :: IsRun(Start(|results|), moves, results, s)
  }

  lemma ReachableInv<G>(s: Sweep<G>, results: seq<ProjectGit<G>>)
    requires Reachable(s, results)
    ensures Inv(s, results)
  {
    var moves :| IsRun(Start(|results|), moves, results, s);
    StartInv(results);
    RunKeepsInv(Start(|results|), moves, results, s);
  }

  // ---------- What it gives ----------

  /** Never more than eight goroutines read at once, and no slot is written twice or by anyone but its owner. */
  lemma BoundedAndOwned<G>(s: Sweep<G>, results: seq<ProjectGit<G>>)
    requires Reachable(s, results)
    ensures Count(s.pcs, HoldsSlot) <= 8
    ensures |s.out| == |s.writes| == |results|
    ensures forall i :: 0 <= i < |results| ==> s.writes[i] <= 1 && (s.out[i] == Blank || s.out[i] == Filled(results[i]))
  {
    ReachableInv(s, results);
  }

  lemma SomeWhere(pcs: seq<PC>, which: PC -> bool) returns (i: nat)
    requires Count(pcs, which) > 0
    ensures i < |pcs| && which(pcs[i])
  {
    CountZero(pcs, which);
    i :| i < |pcs| && which(pcs[i]);
  }

  /** No reachable state is stuck: until the wait returns some actor can move. */
  lemma NeverStuck<G>(s: Sweep<G>, results: seq<ProjectGit<G>>)
    requires Reachable(s, results) && !Complete(s)
    ensures exists m :: Enabled(s, m)
  {
    ReachableInv(s, results);
    if s.spawned < |s.pcs| {
      assert Enabled(s, Spawn);
    } else if s.sem > 0 {
      var i := SomeWhere(s.pcs, HoldsSlot);
      assert Enabled(s, Write(i)) || Enabled(s, Release(i));
    } else {
      var i := SomeWhere(s.pcs, Running);
      CountZero(s.pcs, HoldsSlot);
      assert !HoldsSlot(s.pcs[i]);
      assert Enabled(s, Acquire(i)) || Enabled(s, Finish(i));
    }
  }

  function Remaining(pc: PC): nat {
    match pc
    case Unspawned => 5
    case Queued => 4
    case Holding => 3
    case Wrote => 2
    case Released => 1
    case Exited => 0
  }

  function Work(pcs: seq<PC>): nat { Total(Remaining, pcs) }

  /** Every move does exactly one unit of the remaining work, so every run ends. */
  lemma EveryMoveIsProgress<G>(s: Sweep<G>, m: Move, results: seq<ProjectGit<G>>)
    requires Inv(s, results) && Enabled(s, m)
    ensures Work(Next(s, m, results).pcs) == Work(s.pcs) - 1
  {
    var i := if m.Spawn? then s.spawned else m.i;
    TotalUpdate(Remaining, s.pcs, i, Next(s, m, results).pcs[i]);
  }

  lemma {:induction false} RunDoesItsLength<G>(s: Sweep<G>, moves: seq<Move>, results: seq<ProjectGit<G>>, t: Sweep<G>)
    requires Inv(s, results) && IsRun(s, moves, results, t)
    ensures |moves| + Work(t.pcs) == Work(s.pcs)
    decreases |moves|
  {
    if moves != [] {
      EveryMoveIsProgress(s, moves[0], results);
      StepKeepsInv(s, moves[0], results);
      RunDoesItsLength(Next(s, moves[0], results), moves[1..], results, t);
    }
  }

  /** Any schedule of n projects takes at most 5n moves, and the sweep is complete exactly after all 5n. */
  lemma EveryScheduleEnds<G>(moves: seq<Move>, results: seq<ProjectGit<G>>, s: Sweep<G>)
    requires IsRun(Start(|results|), moves, results, s)
    ensures |moves| <= 5 * |results|
    ensures Complete(s) <==> |moves| == 5 * |results|
  {
    StartInv(results);
    RunKeepsInv(Start(|results|), moves, results, s);
    RunDoesItsLength(Start(|results|), moves, results, s);
    TotalOfSame(Remaining, Start<G>(|results|).pcs, 5);
    assert Reachable(s, results);
    CompleteIsIdle(s, results);
  }

  lemma CompleteIsIdle<G>(s: Sweep<G>, results: seq<ProjectGit<G>>)
    requires Reachable(s, results)
    ensures Complete(s) <==> Work(s.pcs) == 0
  {
    ReachableInv(s, results);
    if Complete(s) {
      CountZero(s.pcs, Running);
      TotalOfSame(Remaining, s.pcs, 0);
    } else {
      NeverStuck(s, results);
      var m :| Enabled(s, m);
      EveryMoveIsProgress(s, m, results);
    }
  }

  // ---------- The sorted answer ----------

  ghost predicate SortedByName<G>(xs: seq<ProjectGit<G>>) {
    forall i, j :: 0 <= i < j < |xs| ==> !Less(xs[j].name, xs[i].name)
  }

  ghost function Values<G>(out: seq<Slot<G>>): (xs: seq<ProjectGit<G>>)
    requires forall i :: 0 <= i < |out| ==> out[i].Filled?
    ensures |xs| == |out| && forall i :: 0 <= i < |xs| ==> xs[i] == out[i].value
  {
    seq(|out|, i requires 0 <= i < |out| => out[i].value)
  }

  /** `answer` is some sorting by name of the slots, as an unstable sort leaves it. */
  ghost predicate Answers<G>(s: Sweep<G>, answer: seq<ProjectGit<G>>) {
    && (forall i :: 0 <= i < |s.out| ==> s.out[i].Filled?)
    && SortedByName(answer) && multiset(answer) == multiset(Values(s.out))
  }

  ghost predicate UniqueNames<G>(xs: seq<ProjectGit<G>>) {
    forall i, j :: 0 <= i < j < |xs| ==> xs[i].name != xs[j].name
  }

  lemma CompleteIsFilled<G>(s: Sweep<G>, results: seq<ProjectGit<G>>)
    requires Reachable(s, results) && Complete(s)
    ensures |s.out| == |s.writes| == |results|
    ensures forall i :: 0 <= i < |results| ==> s.out[i] == Filled(results[i]) && s.writes[i] == 1
    ensures forall i :: 0 <= i < |s.out| ==> s.out[i].Filled?
    ensures Values(s.out) == results
  {
    ReachableInv(s, results);
    CountZero(s.pcs, Running);
  }

  lemma MultisetMember<G>(xs: seq<ProjectGit<G>>, ys: seq<ProjectGit<G>>, i: nat) returns (j: nat)
    requires multiset(xs) == multiset(ys) && i < |xs|
    ensures j < |ys| && ys[j] == xs[i]
  {
    assert xs[i] in multiset(xs);
    assert xs[i] in multiset(ys);
    j :| j < |ys| && ys[j] == xs[i];
  }

  /** Sorting uniquely named results leaves them strictly ascending by name. */
  lemma SortedIsStrict<G>(xs: seq<ProjectGit<G>>, ys: seq<ProjectGit<G>>, i: nat, j: nat)
    requires SortedByName(xs) && UniqueNames(ys) && multiset(xs) == multiset(ys) && i < j < |xs|
    ensures Less(xs[i].name, xs[j].name)
  {
    LessTotal(xs[i].name, xs[j].name);
    var a := MultisetMember(xs, ys, i);
    var b := MultisetMember(xs, ys, j);
    OnceInMultiset(ys, a);
    if xs[i] == xs[j] {
      TwiceInMultiset(xs, i, j);
    }
  }

  ghost predicate StrictByName<G>(xs: seq<ProjectGit<G>>) {
    forall i, j :: 0 <= i < j < |xs| ==> Less(xs[i].name, xs[j].name)
  }

  lemma SameHead<G>(xs: seq<ProjectGit<G>>, ys: seq<ProjectGit<G>>)
    requires multiset(xs) == multiset(ys) && StrictByName(xs) && StrictByName(ys) && xs != []
    ensures ys != [] && xs[0] == ys[0] && multiset(xs[1..]) == multiset(ys[1..])
  {
    var a := MultisetMember(xs, ys, 0);
    var b := MultisetMember(ys, xs, 0);
    if a > 0 && b > 0 {
      LessAsymmetric(ys[0].name, ys[a].name);
    }
    assert multiset(xs[1..]) == multiset(xs) - multiset{xs[0]} by { assert xs == [xs[0]] + xs[1..]; }
    assert multiset(ys[1..]) == multiset(ys) - multiset{ys[0]} by { assert ys == [ys[0]] + ys[1..]; }
  }

  lemma {:induction false} SortedIsUnique<G>(xs: seq<ProjectGit<G>>, ys: seq<ProjectGit<G>>)
    requires multiset(xs) == multiset(ys) && StrictByName(xs) && StrictByName(ys)
    ensures xs == ys
    decreases |xs|
  {
    if xs == [] {
      assert |multiset(ys)| == 0;
    } else {
      SameHead(xs, ys);
      SortedIsUnique(xs[1..], ys[1..]);
      assert xs == [xs[0]] + xs[1..] && ys == [ys[0]] + ys[1..];
    }
  }

  /** The answer to a sweep of uniquely named projects does not depend on the schedule. */
  lemma AnswerIsDeterministic<G>(s: Sweep<G>, t: Sweep<G>, results: seq<ProjectGit<G>>,
                                 a: seq<ProjectGit<G>>, b: seq<ProjectGit<G>>)
    requires Reachable(s, results) && Complete(s) && Answers(s, a)
    requires Reachable(t, results) && Complete(t) && Answers(t, b)
    requires UniqueNames(results)
    ensures a == b && multiset(a) == multiset(results) && StrictByName(a)
  {
    CompleteIsFilled(s, results);
    CompleteIsFilled(t, results);
    forall i, j | 0 <= i < j < |a| ensures Less(a[i].name, a[j].name) {
      SortedIsStrict(a, results, i, j);
    }
    forall i, j | 0 <= i < j < |b| ensures Less(b[i].name, b[j].name) {
      SortedIsStrict(b, results, i, j);
    }
    SortedIsUnique(a, b);
  }
}
