/**
 Whole runs of the lease registry: claims, heartbeats, expiry sweeps, warm starts, removals and bit rot,
 each one atomic step at one instant of a clock.
 */
module LeaseRuns {
  import opened Registry
  import opened Wrappers

  datatype Op =
    | Claim(reg: Registration)            // Upsert
    | Beat(name: string, ttl: int)        // RefreshLease
    | Sweep                               // ExpireDue
    | WarmStart(grace: int)               // ReconcileWarmStart
    | Remove(project: string)             // Delete
    | Rot(key: string, raw: seq<bv8>)     // a stored value stops decoding
    | Nothing                             // a request that does not reach the store

  datatype Step = Step(at: int, op: Op)

  ghost function Apply(m: Store, s: Step): Store {
    match s.op
    case Claim(reg) => Claimed(m, reg)
    case Beat(name, ttl) => Refreshed(m, name, s.at + ttl)
    case Sweep => Swept(m, s.at)
    case WarmStart(grace) => Restamped(m, s.at + grace)
    case Remove(project) => m - {project}
    case Rot(key, raw) => if key in m then m[key := Corrupt(raw)] else m
    case Nothing => m
  }

  ghost function Run(m: Store, steps: seq<Step>): Store {
    if steps == [] then m else Apply(Run(m, steps[..|steps| - 1]), steps[|steps| - 1])
  }

  lemma {:induction false} RunConcat(m: Store, a: seq<Step>, b: seq<Step>)
    ensures Run(m, a + b) == Run(Run(m, a), b)
  {
    if b == [] {
      assert a + b == a;
    } else {
      var b' := b[..|b| - 1];
      assert (a + b)[..|a + b| - 1] == a + b';
      RunConcat(m, a, b');
    }
  }

  lemma RunOne(m: Store, s: Step)
    ensures Run(m, [s]) == Apply(m, s)
  {
    assert [s][..0] == [];
  }

  // ---------- One holder per address ----------

  /** No two projects' decodable registrations hold the same non-empty address. */
  ghost predicate Exclusive(m: Store) {
    forall j, k :: j in m && k in m && j != k && m[j].Decoded? && m[k].Decoded? && m[j].reg.endpoint.address != "" ==>
      m[j].reg.endpoint.address != m[k].reg.endpoint.address
  }

  lemma StepKeepsExclusive(m: Store, s: Step)
    requires Exclusive(m) && Keyed(m)
    ensures Exclusive(Apply(m, s)) && Keyed(Apply(m, s))
  {
    if s.op.Claim? && !Contested(m, s.op.reg) {
      var m', reg := Apply(m, s), s.op.reg;
      forall j, k | j in m' && k in m' && j != k && m'[j].Decoded? && m'[k].Decoded? && m'[j].reg.endpoint.address != ""
        ensures m'[j].reg.endpoint.address != m'[k].reg.endpoint.address
      {
        assert !Rival(m, reg.project, reg.endpoint.address, j) && !Rival(m, reg.project, reg.endpoint.address, k);
      }
    }
  }

  /** Over every run from the empty store, addresses stay exclusive and values stay under their own key. */
  lemma {:induction false} RunKeepsExclusive(steps: seq<Step>)
    ensures Exclusive(Run(map[], steps)) && Keyed(Run(map[], steps))
  {
    if steps != [] {
      RunKeepsExclusive(steps[..|steps| - 1]);
      StepKeepsExclusive(Run(map[], steps[..|steps| - 1]), steps[|steps| - 1]);
    }
  }

  /** The decodable registration of `k` is at this address. */
  ghost predicate HeldBy(m: Store, k: string, addr: string) {
    k in m && m[k].Decoded? && m[k].reg.endpoint.address == addr
  }

  /** After any run a claim on another project's address changes nothing, and that project is the only one there. */
  lemma RefusalNamesTheOneHolder(steps: seq<Step>, at: int, reg: Registration, h: string)
    requires reg.endpoint.address != "" && h != reg.project && HeldBy(Run(map[], steps), h, reg.endpoint.address)
    ensures Run(map[], steps + [Step(at, Claim(reg))]) == Run(map[], steps)
    ensures forall k :: HeldBy(Run(map[], steps), k, reg.endpoint.address) ==> k == h
    ensures FirstRival(Run(map[], steps), reg, h) && Run(map[], steps)[h].reg.project == h
  {
    RunKeepsExclusive(steps);
    assert Rival(Run(map[], steps), reg.project, reg.endpoint.address, h);
    assert (steps + [Step(at, Claim(reg))])[..|steps|] == steps;
  }

  /** A claim that no other project's decodable registration stands against always takes effect. */
  lemma FreeAddressIsGranted(steps: seq<Step>, at: int, reg: Registration)
    requires reg.project != ""
    requires reg.endpoint.address == "" ||
             forall k :: HeldBy(Run(map[], steps), k, reg.endpoint.address) ==> k == reg.project
    ensures Run(map[], steps + [Step(at, Claim(reg))]) == Run(map[], steps)[reg.project := Decoded(reg)]
  {
    assert (steps + [Step(at, Claim(reg))])[..|steps|] == steps;
    assert Contested(Run(map[], steps), reg) ==>
        exists k :: Rival(Run(map[], steps), reg.project, reg.endpoint.address, k)
                    && HeldBy(Run(map[], steps), k, reg.endpoint.address);
  }

  /** Re-claiming is idempotent: after any run, a project at an address can register at that address again. */
  lemma ReclaimTakesEffect(steps: seq<Step>, at: int, reg: Registration)
    requires HeldBy(Run(map[], steps), reg.project, reg.endpoint.address)
    ensures Run(map[], steps + [Step(at, Claim(reg))]) == Run(map[], steps)[reg.project := Decoded(reg)]
  {
    RunKeepsExclusive(steps);
    FreeAddressIsGranted(steps, at, reg);
  }

  /** Two projects racing for one free address: the earlier claim wins, the later one changes nothing. */
  lemma RaceHasOneWinner(steps: seq<Step>, a: Step, b: Step)
    requires a.op.Claim? && b.op.Claim? && a.op.reg.project != b.op.reg.project && a.op.reg.project != ""
    requires a.op.reg.endpoint.address == b.op.reg.endpoint.address != ""
    requires forall k :: HeldBy(Run(map[], steps), k, a.op.reg.endpoint.address) ==> k == a.op.reg.project
    ensures var m := Run(map[], steps + [a, b]);
            m == Run(map[], steps + [a]) && a.op.reg.project in m && m[a.op.reg.project] == Decoded(a.op.reg)
  {
    FreeAddressIsGranted(steps, a.at, a.op.reg);
    RefusalNamesTheOneHolder(steps + [a], b.at, b.op.reg, a.op.reg.project);
    assert steps + [a] + [b] == steps + [a, b];
  }

  /** Once its holder is removed or no longer decodes, an address is free for any project. */
  lemma LostHolderFreesAddress(steps: seq<Step>, loss: Step, h: string, claim: Step)
    requires loss.op == Remove(h) || (loss.op.Rot? && loss.op.key == h)
    requires claim.op.Claim? && claim.op.reg.project != ""
    requires claim.op.reg.endpoint.address != "" && HeldBy(Run(map[], steps), h, claim.op.reg.endpoint.address)
    ensures Run(map[], steps + [loss, claim]) ==
            Run(map[], steps + [loss])[claim.op.reg.project := Decoded(claim.op.reg)]
    ensures !HeldBy(Run(map[], steps + [loss]), h, claim.op.reg.endpoint.address)
  {
    RunKeepsExclusive(steps);
    assert (steps + [loss])[..|steps|] == steps;
    FreeAddressIsGranted(steps + [loss], claim.at, claim.op.reg);
    assert steps + [loss] + [claim] == steps + [loss, claim];
  }

  /** A value that does not decode is never touched by leases and sweeps: only a claim or a removal of its key is. */
  lemma {:induction false} CorruptStays(m: Store, k: string, steps: seq<Step>)
    requires k in m && m[k].Corrupt?
    requires forall i :: 0 <= i < |steps| ==>
               match steps[i].op
               case Claim(reg) => reg.project != k
               case Remove(q) => q != k
               case Rot(q, _) => q != k
               case _ => true
    ensures k in Run(m, steps) && Run(m, steps)[k] == m[k]
  {
    if steps != [] {
      CorruptStays(m, k, steps[..|steps| - 1]);
    }
  }

  // ---------- Leases: the exact fate of one registration ----------

  /** The registration of `p` decodes and belongs to service `svc`. */
  predicate Live(m: Store, p: string, svc: string) {
    p in m && m[p].Decoded? && m[p].reg.identity.serviceName == svc
  }

  /** Nothing in the run writes or removes `p` other than the lease operations. */
  ghost predicate LeaseOnly(steps: seq<Step>, p: string) {
    forall i :: 0 <= i < |steps| ==>
      match steps[i].op
      case Claim(reg) => reg.project != p
      case Remove(q) => q != p
      case Rot(q, _) => q != p
      case _ => true
  }

  /** The deadline automaton: what the steps alone make of a lease that starts at `deadline`. */
  function Fate(deadline: Option<int>, svc: string, steps: seq<Step>): Option<int> {
    if steps == [] then deadline
    else
      var d := Fate(deadline, svc, steps[..|steps| - 1]);
      var s := steps[|steps| - 1];
      if d.None? then None
      else match s.op
        case Beat(name, ttl) => if name == svc then Some(s.at + ttl) else d
        case WarmStart(grace) => Some(s.at + grace)
        case Sweep => if d.value <= s.at then None else d
        case _ => d
  }

  /**
   The store, seen at one key, is exactly the deadline automaton: survival and the lease are decided by the steps
   alone.
   */
  lemma {:induction false} LeaseFate(m: Store, p: string, svc: string, steps: seq<Step>)
    requires svc != "" && Live(m, p, svc) && m[p].reg.leaseExpiresAt.Some? && LeaseOnly(steps, p)
    ensures p in Run(m, steps) <==> Fate(m[p].reg.leaseExpiresAt, svc, steps).Some?
    ensures p in Run(m, steps) ==>
              Run(m, steps)[p] == Decoded(m[p].reg.(leaseExpiresAt := Fate(m[p].reg.leaseExpiresAt, svc, steps)))
  {
    if steps != [] {
      var before := steps[..|steps| - 1];
      assert LeaseOnly(before, p);
      LeaseFate(m, p, svc, before);
    }
  }

  // ---------- Leases: beating services and silent services ----------

  ghost predicate Monotone(steps: seq<Step>, t0: int) {
    && (forall i :: 0 <= i < |steps| ==> t0 <= steps[i].at)
    && (forall i, j :: 0 <= i < j < |steps| ==> steps[i].at <= steps[j].at)
  }

  /** The steps the daemon takes between two boots that cannot take `p` away from service `svc` except by expiry. */
  ghost predicate Daemon(steps: seq<Step>, p: string, svc: string) {
    forall i :: 0 <= i < |steps| ==>
      match steps[i].op
      case Claim(reg) => reg.project == p ==>
        reg.identity.serviceName == svc && reg.leaseExpiresAt == Some(steps[i].at + DEFAULT_LEASE_TTL)
      case Beat(_, ttl) => ttl == DEFAULT_LEASE_TTL
      case Sweep => true
      case WarmStart(_) => false
      case Remove(q) => q != p
      case Rot(q, _) => q != p
      case Nothing => true
  }

  ghost predicate BeatAt(steps: seq<Step>, j: int, svc: string) {
    0 <= j < |steps| && steps[j].op.Beat? && steps[j].op.name == svc
  }

  /** Every sweep comes less than a TTL after an earlier beat of `svc`, or less than `first` after the start. */
  ghost predicate KeepsBeating(steps: seq<Step>, svc: string, t0: int, first: int) {
    forall i :: 0 <= i < |steps| && steps[i].op.Sweep? ==>
      || steps[i].at < t0 + first
      || exists j :: BeatAt(steps, j, svc) && j < i && steps[i].at < steps[j].at + DEFAULT_LEASE_TTL
  }

  /**
   Beats of `svc` at these steps: the first less than `first` after the start, then less than a TTL apart, to the end.
   */
  ghost predicate BeatsInTime(steps: seq<Step>, svc: string, beats: seq<nat>, t0: int, first: int) {
    && (forall k :: 0 <= k < |beats| ==> BeatAt(steps, beats[k], svc))
    && (forall k :: 0 < k < |beats| ==>
          beats[k - 1] < beats[k] && steps[beats[k]].at < steps[beats[k - 1]].at + DEFAULT_LEASE_TTL)
    && (beats != [] ==> steps[beats[0]].at < t0 + first)
    && (forall i :: 0 <= i < |steps| && (beats != [] ==> beats[|beats| - 1] < i) ==>
          steps[i].at < if beats == [] then t0 + first else steps[beats[|beats| - 1]].at + DEFAULT_LEASE_TTL)
  }

  /** The last of the first `n` beats before step `i`. */
  lemma {:induction false} LastBeatBefore(beats: seq<nat>, i: nat, n: nat) returns (k: int)
    requires n <= |beats|
    ensures -1 <= k < n && (k >= 0 ==> beats[k] < i) && (k + 1 < n ==> beats[k + 1] >= i)
  {
    if n == 0 {
      k := -1;
    } else if beats[n - 1] < i {
      k := n - 1;
    } else {
      k := LastBeatBefore(beats, i, n - 1);
    }
  }

  /** Beats at gaps shorter than the TTL keep the lease ahead of every sweep, wherever the sweeps fall. */
  lemma RegularBeatsKeep(steps: seq<Step>, svc: string, beats: seq<nat>, t0: int, first: int)
    requires Monotone(steps, t0) && BeatsInTime(steps, svc, beats, t0, first)
    ensures KeepsBeating(steps, svc, t0, first)
  {
    forall i | 0 <= i < |steps| && steps[i].op.Sweep? && steps[i].at >= t0 + first
      ensures exists j :: BeatAt(steps, j, svc) && j < i && steps[i].at < steps[j].at + DEFAULT_LEASE_TTL
    {
      var k := LastBeatBefore(beats, i, |beats|);
      assert k >= 0;
      if k + 1 < |beats| {
        assert beats[k + 1] != i && steps[i].at <= steps[beats[k + 1]].at;
      } else {
        assert forall l :: 0 <= l < |beats| ==> beats[l] <= beats[k] by {
          BeatsAscend(steps, svc, beats, t0, first);
        }
      }
      assert BeatAt(steps, beats[k], svc);
    }
  }

  lemma BeatsAscend(steps: seq<Step>, svc: string, beats: seq<nat>, t0: int, first: int)
    requires BeatsInTime(steps, svc, beats, t0, first)
    ensures forall l :: 0 <= l < |beats| ==> beats[l] <= beats[|beats| - 1]
  {
    var n := |beats| - 1;
    for d := 0 to |beats|
      invariant forall l :: |beats| - d <= l < |beats| ==> beats[l] <= beats[n]
    {
      var l := |beats| - d - 1;
      if l < n {
        assert beats[l + 1 - 1] < beats[l + 1];
      }
    }
  }

  /** What holds after every prefix of a beating run. */
  ghost predicate Covered(m: Store, p: string, svc: string, steps: seq<Step>, t0: int, first: int) {
    && Live(m, p, svc)
    && m[p].reg.leaseExpiresAt.Some?
    && t0 + first <= m[p].reg.leaseExpiresAt.value
    && forall j :: BeatAt(steps, j, svc) ==> steps[j].at + DEFAULT_LEASE_TTL <= m[p].reg.leaseExpiresAt.value
  }

  lemma BeatingStep(m: Store, p: string, svc: string, steps: seq<Step>, t0: int, first: int)
    requires steps != [] && svc != "" && first <= DEFAULT_LEASE_TTL
    requires Monotone(steps, t0) && Daemon(steps, p, svc) && KeepsBeating(steps, svc, t0, first)
    requires Covered(m, p, svc, steps[..|steps| - 1], t0, first)
    ensures Covered(Apply(m, steps[|steps| - 1]), p, svc, steps, t0, first)
  {
    var n := |steps| - 1;
    var s, m', init := steps[n], Apply(m, steps[n]), steps[..n];
    assert forall j :: BeatAt(steps, j, svc) && j < n ==> BeatAt(init, j, svc) && init[j] == steps[j];
    if s.op.Sweep? {
      assert !Due(m[p], s.at);
    }
    assert Live(m', p, svc) && m'[p].reg.leaseExpiresAt.Some?;
    var lease, lease' := m[p].reg.leaseExpiresAt.value, m'[p].reg.leaseExpiresAt.value;
    assert lease <= lease' || lease' == s.at + DEFAULT_LEASE_TTL;
    forall j | BeatAt(steps, j, svc) ensures steps[j].at + DEFAULT_LEASE_TTL <= m'[p].reg.leaseExpiresAt.value {
      if j < n {
        assert BeatAt(init, j, svc) && init[j] == steps[j];
      }
    }
  }

  /** Lease safety: a service beating at gaps shorter than the TTL is never swept away, whatever the sweep schedule. */
  lemma {:induction false} BeatingServiceStays(m: Store, p: string, svc: string, steps: seq<Step>, t0: int, first: int)
    requires svc != "" && Live(m, p, svc) && first <= DEFAULT_LEASE_TTL
    requires m[p].reg.leaseExpiresAt == Some(t0 + first)
    requires Monotone(steps, t0) && Daemon(steps, p, svc) && KeepsBeating(steps, svc, t0, first)
    ensures Covered(Run(m, steps), p, svc, steps, t0, first)
    ensures Live(Run(m, steps), p, svc)
  {
    if steps != [] {
      var init := steps[..|steps| - 1];
      assert KeepsBeating(init, svc, t0, first) by {
        forall i | 0 <= i < |init| && init[i].op.Sweep? && init[i].at >= t0 + first
          ensures exists j :: BeatAt(init, j, svc) && j < i && init[i].at < init[j].at + DEFAULT_LEASE_TTL
        {
          assert steps[i].op.Sweep?;
          var j :| BeatAt(steps, j, svc) && j < i && steps[i].at < steps[j].at + DEFAULT_LEASE_TTL;
          assert BeatAt(init, j, svc);
        }
      }
      BeatingServiceStays(m, p, svc, init, t0, first);
      BeatingStep(Run(m, init), p, svc, steps, t0, first);
    }
  }

  /**
   Lease safety in terms of the beats alone: at gaps shorter than the TTL the service stays, under any sweep schedule.
   */
  lemma RegularServiceStays(m: Store, p: string, svc: string, steps: seq<Step>, beats: seq<nat>, t0: int)
    requires svc != "" && Live(m, p, svc) && m[p].reg.leaseExpiresAt == Some(t0 + DEFAULT_LEASE_TTL)
    requires Monotone(steps, t0) && Daemon(steps, p, svc) && BeatsInTime(steps, svc, beats, t0, DEFAULT_LEASE_TTL)
    ensures Live(Run(m, steps), p, svc)
  {
    RegularBeatsKeep(steps, svc, beats, t0, DEFAULT_LEASE_TTL);
    BeatingServiceStays(m, p, svc, steps, t0, DEFAULT_LEASE_TTL);
  }

  /** And after a reboot at `t0`, with the first beat within the grace. */
  lemma RegularServiceSurvivesReboot(m: Store, p: string, svc: string, steps: seq<Step>, beats: seq<nat>, t0: int)
    requires svc != "" && Live(m, p, svc)
    requires Monotone(steps, t0) && Daemon(steps, p, svc) && BeatsInTime(steps, svc, beats, t0, WARM_START_GRACE)
    ensures Live(Run(m, [Step(t0, WarmStart(WARM_START_GRACE))] + steps), p, svc)
  {
    RegularBeatsKeep(steps, svc, beats, t0, WARM_START_GRACE);
    WarmStartedServiceStays(m, p, svc, steps, t0);
  }

  /** The same after a reboot at `t0`: the first beat must come within the grace, later ones within the TTL. */
  lemma WarmStartedServiceStays(m: Store, p: string, svc: string, steps: seq<Step>, t0: int)
    requires svc != "" && Live(m, p, svc)
    requires Monotone(steps, t0) && Daemon(steps, p, svc) && KeepsBeating(steps, svc, t0, WARM_START_GRACE)
    ensures Live(Run(m, [Step(t0, WarmStart(WARM_START_GRACE))] + steps), p, svc)
  {
    var boot := [Step(t0, WarmStart(WARM_START_GRACE))];
    RunConcat(m, boot, steps);
    RunOne(m, boot[0]);
    BeatingServiceStays(Run(m, boot), p, svc, steps, t0, WARM_START_GRACE);
  }

  /** Nothing keeps `p` alive: no beat of its service, no new claim, no reboot, no bit rot. */
  ghost predicate Silent(steps: seq<Step>, p: string, svc: string) {
    forall i :: 0 <= i < |steps| ==>
      match steps[i].op
      case Claim(reg) => reg.project != p
      case Beat(name, _) => name != svc
      case Sweep => true
      case WarmStart(_) => false
      case Remove(_) => true
      case Rot(q, _) => q != p
      case Nothing => true
  }

  ghost predicate SweptAtOrAfter(steps: seq<Step>, t: int) {
    exists i :: 0 <= i < |steps| && steps[i].op.Sweep? && t <= steps[i].at
  }

  /** A registration that lapses by `t`. */
  ghost predicate LapsesBy(m: Store, p: string, svc: string, t: int) {
    p in m ==> Live(m, p, svc) && (m[p].reg.leaseExpiresAt.Some? ==> m[p].reg.leaseExpiresAt.value <= t)
  }

  /**
   Lease liveness: once silent, a registration lapsing by `t` is gone after the first sweep at or after `t`, for good.
   */
  lemma {:induction false} SilentServiceGoes(m: Store, p: string, svc: string, steps: seq<Step>, t: int)
    requires LapsesBy(m, p, svc, t) && Silent(steps, p, svc)
    ensures LapsesBy(Run(m, steps), p, svc, t)
    ensures SweptAtOrAfter(steps, t) ==> p !in Run(m, steps)
  {
    if steps != [] {
      var init := steps[..|steps| - 1];
      SilentServiceGoes(m, p, svc, init, t);
      if SweptAtOrAfter(steps, t) {
        var i :| 0 <= i < |steps| && steps[i].op.Sweep? && t <= steps[i].at;
        assert i < |init| ==> init[i] == steps[i];
      }
    }
  }

  /** The daemon's own policy: claims and beats stamp the TTL, reboots the grace. */
  ghost predicate Policy(steps: seq<Step>) {
    forall i :: 0 <= i < |steps| ==>
      match steps[i].op
      case Claim(reg) => reg.leaseExpiresAt == Some(steps[i].at + DEFAULT_LEASE_TTL)
      case Beat(_, ttl) => ttl == DEFAULT_LEASE_TTL
      case WarmStart(grace) => grace == WARM_START_GRACE
      case _ => true
  }

  ghost predicate LeasesWithin(m: Store, t: int) {
    forall k :: k in m && m[k].Decoded? && m[k].reg.leaseExpiresAt.Some? ==> m[k].reg.leaseExpiresAt.value <= t
  }

  /** Under that policy no lease ever reaches further than a TTL beyond the clock. */
  lemma {:induction false} LeasesAreBounded(steps: seq<Step>, now: int)
    requires Policy(steps) && forall i :: 0 <= i < |steps| ==> steps[i].at <= now
    ensures LeasesWithin(Run(map[], steps), now + DEFAULT_LEASE_TTL)
  {
    if steps != [] {
      LeasesAreBounded(steps[..|steps| - 1], now);
    }
  }

  /** Whole-run liveness: a service silent since `t` is gone after the first sweep at or after `t` plus the TTL. */
  lemma SilentSinceIsGone(before: seq<Step>, after: seq<Step>, p: string, svc: string, t: int)
    requires Policy(before) && forall i :: 0 <= i < |before| ==> before[i].at <= t
    requires Live(Run(map[], before), p, svc)
    requires Silent(after, p, svc) && SweptAtOrAfter(after, t + DEFAULT_LEASE_TTL)
    ensures p !in Run(map[], before + after)
  {
    LeasesAreBounded(before, t);
    RunConcat(map[], before, after);
    SilentServiceGoes(Run(map[], before), p, svc, after, t + DEFAULT_LEASE_TTL);
  }

  /**
   After a reboot at `t0` a service that stays silent is gone at the first sweep past the grace, however long its
   stored lease.
   */
  lemma SilentAfterWarmStartIsGone(m: Store, after: seq<Step>, p: string, svc: string, t0: int)
    requires Live(m, p, svc) && Silent(after, p, svc) && SweptAtOrAfter(after, t0 + WARM_START_GRACE)
    ensures p !in Run(m, [Step(t0, WarmStart(WARM_START_GRACE))] + after)
  {
    var boot := [Step(t0, WarmStart(WARM_START_GRACE))];
    RunConcat(m, boot, after);
    RunOne(m, boot[0]);
    SilentServiceGoes(Run(m, boot), p, svc, after, t0 + WARM_START_GRACE);
  }
}
