/**
 The /register broker: the gates a registration must pass before it is recorded, what the caller is told,
 and the NotRegistered event for every registration that does not complete.
 The network (schema registry, /health), the name validator and store failures are parameters.
 */
module Register {
  import opened Registry
  import opened Wrappers
  import LeaseRuns

  const REQUIRED_EMIT_SUBJECT := "observability.v1.ServiceHealthHeartbeat"
  const LEASE_TTL_SECONDS := DEFAULT_LEASE_TTL / SECOND

  datatype RegisterRequest = RegisterRequest(
    project: string, identity: Identity, contracts: Contracts, endpoints: seq<Endpoint>)

  datatype Body = Unreadable | Malformed | Parsed(req: RegisterRequest)

  datatype Answer = Exists | Absent | Unavailable

  /** One request's surroundings; `ask(i, s)` is the schema registry's answer to the i-th question of the request. */
  datatype Env = Env(
    ask: (nat, string) -> Answer, healthy: Endpoint -> bool, wellFormed: string -> bool,
    marshals: bool, commits: bool, encodes: bool)

  datatype Reply =
    | Accepted(identity: Identity, endpoint: Endpoint, ttlSeconds: int)
    | Refused(status: int, code: string)
    | InternalError

  datatype NotRegistered = NotRegistered(project: string, endpoint: string, code: string)

  datatype Verdict = Pass | Fail(status: int, code: string)

  function FirstAddress(endpoints: seq<Endpoint>): string {
    if endpoints == [] then "" else endpoints[0].address
  }

  // ---------- The gates, as one list ----------

  datatype Gate = Gate(passes: bool, status: int, code: string)

  function SubjectGate(a: Answer): Gate {
    match a
    case Exists => Gate(true, 0, "")
    case Absent => Gate(false, 422, "unknown_subject")
    case Unavailable => Gate(false, 503, "verify_unavailable")
  }

  ghost function ContractGates(c: Contracts, env: Env): seq<Gate> {
    var subjects := c.emits + c.consumes;
    [Gate(REQUIRED_EMIT_SUBJECT in c.emits, 422, "missing_required_subject")]
    + seq(|subjects|, i requires 0 <= i < |subjects| => SubjectGate(env.ask(i, subjects[i])))
    + seq(|c.serves|, i requires 0 <= i < |c.serves| => Gate(env.wellFormed(c.serves[i]), 422, "malformed_serves"))
  }

  ghost function Gates(roster: seq<string>, req: RegisterRequest, env: Env): seq<Gate> {
    [ Gate(req.project in roster, 404, "unknown_project"),
      Gate(req.identity.project == req.project, 422, "inconsistent_identity"),
      Gate(FirstAddress(req.endpoints) != "", 422, "no_endpoint") ]
    + ContractGates(req.contracts, env)
    + [ Gate(req.endpoints != [] && env.healthy(req.endpoints[0]), 422, "unreachable") ]
  }

  ghost predicate AllPass(gates: seq<Gate>) {
    forall i :: 0 <= i < |gates| ==> gates[i].passes
  }

  /** The verdict of a gate list is that of its first failing gate. */
  ghost predicate Decides(gates: seq<Gate>, v: Verdict) {
    if v.Pass? then AllPass(gates)
    else exists i ::
      0 <= i < |gates| && AllPass(gates[..i]) && !gates[i].passes && v == Fail(gates[i].status, gates[i].code)
  }

  lemma DecidesAppend(a: seq<Gate>, b: seq<Gate>, v: Verdict)
    ensures v.Fail? && Decides(a, v) ==> Decides(a + b, v)
    ensures AllPass(a) && Decides(b, v) ==> Decides(a + b, v)
  {
    if v.Fail? && Decides(a, v) {
      var i :| 0 <= i < |a| && AllPass(a[..i]) && !a[i].passes && v == Fail(a[i].status, a[i].code);
      assert (a + b)[..i] == a[..i];
      assert (a + b)[i] == a[i];
    }
    if AllPass(a) && Decides(b, v) && v.Fail? {
      var i :| 0 <= i < |b| && AllPass(b[..i]) && !b[i].passes && v == Fail(b[i].status, b[i].code);
      assert (a + b)[..|a| + i] == a + b[..i];
      assert (a + b)[|a| + i] == b[i];
    }
  }

  lemma DecidesOne(g: Gate)
    ensures g.passes ==> Decides([g], Pass)
    ensures !g.passes ==> Decides([g], Fail(g.status, g.code))
  {
    assert AllPass([g][..0]);
    assert [g][0] == g;
  }

  lemma PrefixPasses(gates: seq<Gate>, n: nat)
    requires n <= |gates| && AllPass(gates[..n])
    ensures forall k :: 0 <= k < n ==> gates[k].passes
  {
    forall k | 0 <= k < n ensures gates[k].passes {
      assert gates[..n][k].passes;
    }
  }

  /** One list of gates is judged the same way at most once. */
  lemma VerdictIsUnique(gates: seq<Gate>, v: Verdict, w: Verdict)
    requires Decides(gates, v) && Decides(gates, w)
    ensures v == w
  {
    if v.Fail? {
      var i :| 0 <= i < |gates| && AllPass(gates[..i]) && !gates[i].passes && v == Fail(gates[i].status, gates[i].code);
      if w.Fail? {
        var j :|
          0 <= j < |gates| && AllPass(gates[..j]) && !gates[j].passes && w == Fail(gates[j].status, gates[j].code);
        PrefixPasses(gates, i);
        PrefixPasses(gates, j);
      }
    }
  }

  /** The verdict at the first failing gate. */
  lemma DecidedAt(gates: seq<Gate>, i: nat, v: Verdict)
    requires Decides(gates, v) && i < |gates| && !gates[i].passes && forall k :: 0 <= k < i ==> gates[k].passes
    ensures v == Fail(gates[i].status, gates[i].code)
  {
    VerdictIsUnique(gates, v, Fail(gates[i].status, gates[i].code));
  }

  /** The claim itself is in order: a managed project, its own identity, an endpoint and the required subject. */
  predicate InOrder(roster: seq<string>, req: RegisterRequest) {
    && req.project in roster && req.identity.project == req.project
    && req.endpoints != [] && req.endpoints[0].address != ""
    && "observability.v1.ServiceHealthHeartbeat" in req.contracts.emits
  }

  /** The first `n` questions were all answered that the subject exists. */
  ghost predicate KnownUpTo(env: Env, subjects: seq<string>, n: int) {
    forall i :: 0 <= i < n && i < |subjects| ==> env.ask(i, subjects[i]) == Exists
  }

  /** What stands where in the list of gates. */
  ghost predicate Layout(gates: seq<Gate>, roster: seq<string>, req: RegisterRequest, env: Env) {
    var subjects, serves := req.contracts.emits + req.contracts.consumes, req.contracts.serves;
    && |gates| == 5 + |subjects| + |serves|
    && gates[0] == Gate(req.project in roster, 404, "unknown_project")
    && gates[1] == Gate(req.identity.project == req.project, 422, "inconsistent_identity")
    && gates[2] == Gate(req.endpoints != [] && req.endpoints[0].address != "", 422, "no_endpoint")
    && gates[3] == Gate(REQUIRED_EMIT_SUBJECT in req.contracts.emits, 422, "missing_required_subject")
    && (forall k :: 0 <= k < |subjects| ==> gates[4 + k] == SubjectGate(env.ask(k, subjects[k])))
    && (forall k :: 0 <= k < |serves| ==>
          gates[4 + |subjects| + k] == Gate(env.wellFormed(serves[k]), 422, "malformed_serves"))
    && gates[4 + |subjects| + |serves|] ==
         Gate(req.endpoints != [] && env.healthy(req.endpoints[0]), 422, "unreachable")
  }

  lemma GatesLayout(roster: seq<string>, req: RegisterRequest, env: Env)
    ensures Layout(Gates(roster, req, env), roster, req, env)
  {
    ContractLayout(req.contracts, env);
  }

  lemma ContractLayout(c: Contracts, env: Env)
    ensures var gates, subjects := ContractGates(c, env), c.emits + c.consumes;
            && |gates| == 1 + |subjects| + |c.serves|
            && gates[0] == Gate(REQUIRED_EMIT_SUBJECT in c.emits, 422, "missing_required_subject")
            && (forall k :: 0 <= k < |subjects| ==> gates[1 + k] == SubjectGate(env.ask(k, subjects[k])))
            && (forall k :: 0 <= k < |c.serves| ==>
                  gates[1 + |subjects| + k] == Gate(env.wellFormed(c.serves[k]), 422, "malformed_serves"))
  {
  }

  /** Every gate told outright, in order: what a caller hears is the first thing that is wrong. */
  lemma FirstFailureDecides(roster: seq<string>, req: RegisterRequest, env: Env, v: Verdict)
    requires Decides(Gates(roster, req, env), v)
    ensures !InOrder(roster, req) ==>
              v == if req.project !in roster then Fail(404, "unknown_project")
                   else if req.identity.project != req.project then Fail(422, "inconsistent_identity")
                   else if req.endpoints == [] || req.endpoints[0].address == "" then Fail(422, "no_endpoint")
                   else Fail(422, "missing_required_subject")
    ensures var subjects := req.contracts.emits + req.contracts.consumes;
            InOrder(roster, req) ==> forall i :: 0 <= i < |subjects| && KnownUpTo(env, subjects, i) ==>
              (env.ask(i, subjects[i]) == Absent ==> v == Fail(422, "unknown_subject"))
              && (env.ask(i, subjects[i]) == Unavailable ==> v == Fail(503, "verify_unavailable"))
    ensures var subjects := req.contracts.emits + req.contracts.consumes;
            InOrder(roster, req) && KnownUpTo(env, subjects, |subjects|) ==>
              v == if exists s :: s in req.contracts.serves && !env.wellFormed(s) then Fail(422, "malformed_serves")
                   else if !env.healthy(req.endpoints[0]) then Fail(422, "unreachable")
                   else Pass
  {
    var gates, subjects := Gates(roster, req, env), req.contracts.emits + req.contracts.consumes;
    GatesLayout(roster, req, env);
    if !InOrder(roster, req) {
      FirstDisorder(gates, roster, req, env, v);
    } else {
      forall i | 0 <= i < |subjects| && KnownUpTo(env, subjects, i) && env.ask(i, subjects[i]) != Exists
        ensures v == Fail(SubjectGate(env.ask(i, subjects[i])).status, SubjectGate(env.ask(i, subjects[i])).code)
      {
        FirstUnknown(gates, roster, req, env, v, i);
      }
      if KnownUpTo(env, subjects, |subjects|) {
        PastSubjects(gates, roster, req, env, v);
      }
    }
  }

  lemma FirstDisorder(gates: seq<Gate>, roster: seq<string>, req: RegisterRequest, env: Env, v: Verdict)
    requires Layout(gates, roster, req, env) && !InOrder(roster, req) && Decides(gates, v)
    ensures v == if req.project !in roster then Fail(404, "unknown_project")
                 else if req.identity.project != req.project then Fail(422, "inconsistent_identity")
                 else if req.endpoints == [] || req.endpoints[0].address == "" then Fail(422, "no_endpoint")
                 else Fail(422, "missing_required_subject")
  {
    var i := if !gates[0].passes then 0 else if !gates[1].passes then 1 else if !gates[2].passes then 2 else 3;
    DecidedAt(gates, i, v);
  }

  lemma KnownPass(gates: seq<Gate>, roster: seq<string>, req: RegisterRequest, env: Env, n: nat)
    requires Layout(gates, roster, req, env) && InOrder(roster, req)
    requires n <= |req.contracts.emits + req.contracts.consumes|
    requires KnownUpTo(env, req.contracts.emits + req.contracts.consumes, n)
    ensures forall k :: 0 <= k < 4 + n ==> gates[k].passes
  {
    var subjects := req.contracts.emits + req.contracts.consumes;
    forall k | 4 <= k < 4 + n ensures gates[k].passes {
      var j := k - 4;
      assert gates[4 + j] == SubjectGate(env.ask(j, subjects[j]));
    }
  }

  lemma FirstUnknown(gates: seq<Gate>, roster: seq<string>, req: RegisterRequest, env: Env, v: Verdict, i: nat)
    requires Layout(gates, roster, req, env) && InOrder(roster, req) && Decides(gates, v)
    requires var subjects := req.contracts.emits + req.contracts.consumes;
             i < |subjects| && KnownUpTo(env, subjects, i) && env.ask(i, subjects[i]) != Exists
    ensures var g := SubjectGate(env.ask(i, (req.contracts.emits + req.contracts.consumes)[i]));
            v == Fail(g.status, g.code)
  {
    KnownPass(gates, roster, req, env, i);
    DecidedAt(gates, 4 + i, v);
  }

  lemma {:induction false} FirstMalformed(serves: seq<string>, ok: string -> bool) returns (k: nat)
    ensures k <= |serves| && (forall j :: 0 <= j < k ==> ok(serves[j])) && (k < |serves| ==> !ok(serves[k]))
    ensures k < |serves| <==> exists s :: s in serves && !ok(s)
  {
    k := 0;
    while k < |serves| && ok(serves[k])
      invariant k <= |serves| && forall j :: 0 <= j < k ==> ok(serves[j])
    {
      k := k + 1;
    }
  }

  lemma PastSubjects(gates: seq<Gate>, roster: seq<string>, req: RegisterRequest, env: Env, v: Verdict)
    requires Layout(gates, roster, req, env) && InOrder(roster, req) && Decides(gates, v)
    requires KnownUpTo(env, req.contracts.emits + req.contracts.consumes,
                       |req.contracts.emits + req.contracts.consumes|)
    ensures v == if exists s :: s in req.contracts.serves && !env.wellFormed(s) then Fail(422, "malformed_serves")
                 else if !env.healthy(req.endpoints[0]) then Fail(422, "unreachable")
                 else Pass
  {
    var serves, n := req.contracts.serves, 4 + |req.contracts.emits + req.contracts.consumes|;
    KnownPass(gates, roster, req, env, n - 4);
    var k := FirstMalformed(serves, env.wellFormed);
    forall j | n <= j < n + k ensures gates[j].passes {
      assert gates[n + (j - n)] == Gate(env.wellFormed(serves[j - n]), 422, "malformed_serves");
    }
    if gates[n + k].passes {
      VerdictIsUnique(gates, v, Pass);
    } else {
      DecidedAt(gates, n + k, v);
    }
  }

  method HasSubject(refs: seq<string>, subject: string) returns (found: bool)
    ensures found <==> subject in refs
  {
    for i := 0 to |refs|
      invariant subject !in refs[..i]
    {
      if refs[i] == subject {
        return true;
      }
    }
    return false;
  }

  /** RULE-4: the claimed contract descriptor, checked in the order required emit, bus subjects, served names. */
  method VerifyContracts(c: Contracts, env: Env) returns (v: Verdict)
    ensures Decides(ContractGates(c, env), v)
  {
    var required := HasSubject(c.emits, REQUIRED_EMIT_SUBJECT);
    ghost var subjects := c.emits + c.consumes;
    ghost var first := [Gate(required, 422, "missing_required_subject")];
    ghost var asked := seq(|subjects|, i requires 0 <= i < |subjects| => SubjectGate(env.ask(i, subjects[i])));
    ghost var served :=
      seq(|c.serves|, i requires 0 <= i < |c.serves| => Gate(env.wellFormed(c.serves[i]), 422, "malformed_serves"));
    assert ContractGates(c, env) == first + asked + served;
    DecidesOne(first[0]);
    if !required {
      v := Fail(422, "missing_required_subject");
      DecidesAppend(first, asked, v);
      DecidesAppend(first + asked, served, v);
      return;
    }
    v := AskAll(c, env);
    DecidesAppend(first, asked, v);
    if v.Fail? {
      DecidesAppend(first + asked, served, v);
      return;
    }
    assert AllPass(first + asked);
    v := Pass;
    for i := 0 to |c.serves|
      invariant AllPass(served[..i]) && v == Pass
    {
      if !env.wellFormed(c.serves[i]) {
        v := Fail(422, "malformed_serves");
        assert !served[i].passes && v == Fail(served[i].status, served[i].code);
        break;
      }
    }
    assert served[..|served|] == served;
    assert Decides(served, v);
    DecidesAppend(first + asked, served, v);
  }

  /** The double loop over emits then consumes; the question number runs through both. */
  method AskAll(c: Contracts, env: Env) returns (v: Verdict)
    ensures var subjects := c.emits + c.consumes;
            Decides(seq(|subjects|, i requires 0 <= i < |subjects| => SubjectGate(env.ask(i, subjects[i]))), v)
  {
    ghost var subjects := c.emits + c.consumes;
    ghost var gates := seq(|subjects|, i requires 0 <= i < |subjects| => SubjectGate(env.ask(i, subjects[i])));
    var groups := [c.emits, c.consumes];
    var asked := 0;
    for g := 0 to 2
      invariant asked == if g == 0 then 0 else if g == 1 then |c.emits| else |subjects|
      invariant asked <= |gates| && AllPass(gates[..asked])
    {
      for k := 0 to |groups[g]|
        invariant asked == (if g == 0 then 0 else |c.emits|) + k
        invariant asked <= |gates| && AllPass(gates[..asked])
      {
        assert subjects[asked] == groups[g][k];
        var answer := env.ask(asked, groups[g][k]);
        assert gates[asked] == SubjectGate(answer);
        if answer == Unavailable {
          return Fail(503, "verify_unavailable");
        }
        if answer == Absent {
          return Fail(422, "unknown_subject");
        }
        asked := asked + 1;
      }
    }
    assert gates[..asked] == gates;
    return Pass;
  }

  // ---------- The handler ----------

  /** What is recorded for a request that passes every gate. */
  function Record(req: RegisterRequest, now: int): Registration
    requires req.endpoints != []
  {
    Registration(req.project, req.identity, req.contracts, req.endpoints[0], now, Some(now + DEFAULT_LEASE_TTL))
  }

  /** The verdict on a request body before the store is consulted. */
  ghost predicate Judged(roster: seq<string>, body: Body, env: Env, v: Verdict) {
    match body
    case Unreadable => v == Fail(400, "unreadable_body")
    case Malformed => v == Fail(400, "malformed_request")
    case Parsed(req) => Decides(Gates(roster, req, env), v)
  }

  class Server {
    const roster: seq<string>
    const busConfigured: bool
    const reg: Registry
    var emitted: seq<NotRegistered>

    constructor (roster: seq<string>, busConfigured: bool, reg: Registry)
      ensures this.roster == roster && this.busConfigured == busConfigured && this.reg == reg && emitted == []
    {
      this.roster := roster;
      this.busConfigured := busConfigured;
      this.reg := reg;
      emitted := [];
    }

    method NotRegisteredReply(status: int, project: string, endpoint: string, code: string) returns (reply: Reply)
      modifies this`emitted
      ensures reply == Refused(status, code)
      ensures emitted == old(emitted) + if busConfigured then [NotRegistered(project, endpoint, code)] else []
    {
      reply := Refused(status, code);
      if busConfigured {
        emitted := emitted + [NotRegistered(project, endpoint, code)];
      }
    }

    /** The gates of the handler, in its order. */
    method Judge(req: RegisterRequest, env: Env) returns (v: Verdict)
      ensures Decides(Gates(roster, req, env), v)
    {
      ghost var declared := [
        Gate(req.project in roster, 404, "unknown_project"),
        Gate(req.identity.project == req.project, 422, "inconsistent_identity"),
        Gate(FirstAddress(req.endpoints) != "", 422, "no_endpoint")];
      ghost var contracts := ContractGates(req.contracts, env);
      ghost var health := [Gate(req.endpoints != [] && env.healthy(req.endpoints[0]), 422, "unreachable")];
      ghost var gates := Gates(roster, req, env);
      assert gates == declared + contracts + health;
      var managed := HasSubject(roster, req.project);
      if !managed {
        assert AllPass(gates[..0]) && gates[0] == declared[0];
        return Fail(404, "unknown_project");
      }
      if req.identity.project != req.project {
        assert AllPass(gates[..1]) && gates[1] == declared[1];
        return Fail(422, "inconsistent_identity");
      }
      if FirstAddress(req.endpoints) == "" {
        assert AllPass(gates[..2]) && gates[2] == declared[2];
        return Fail(422, "no_endpoint");
      }
      v := VerifyContracts(req.contracts, env);
      DecidesAppend(declared, contracts, v);
      DecidesAppend(declared + contracts, health, v);
      if v.Fail? {
        return;
      }
      v := if env.healthy(req.endpoints[0]) then Pass else Fail(422, "unreachable");
      DecidesOne(health[0]);
      DecidesAppend(declared + contracts, health, v);
    }

    method HandleRegister(body: Body, env: Env, now: int) returns (reply: Reply)
      requires reg.Valid()
      modifies this`emitted, reg
      ensures reg.Valid()
      // A failing gate: its own status and code, and no write.
      ensures forall v :: Judged(roster, body, env, v) && v.Fail? ==>
                reply == Refused(v.status, v.code) && reg.View() == old(reg.View())
      // Every gate passed: one atomic claim decides.
      ensures Judged(roster, body, env, Pass) ==>
                body.Parsed? && body.req.endpoints != [] &&
                var claim := Record(body.req, now);
                if !env.marshals then
                  reply == InternalError && reg.View() == old(reg.View())
                else if Contested(old(reg.View()), claim) then
                  reply == Refused(409, "endpoint_held") && reg.View() == old(reg.View())
                else if !env.commits || claim.project == "" then
                  reply == InternalError && reg.View() == old(reg.View())
                else
                  && reg.View() == old(reg.View())[claim.project := Decoded(claim)]
                  && (reply.Accepted? <==> env.encodes) && (reply == InternalError <==> !env.encodes)
      ensures body.Unreadable? ==> reply == Refused(400, "unreadable_body")
      ensures body.Malformed? ==> reply == Refused(400, "malformed_request")
      // What an accepted caller is told, and what is stored for it, is its own identity, contracts and first endpoint.
      ensures reply.Accepted? ==>
                body.Parsed? && var req := body.req;
                && req.endpoints != [] && reply == Accepted(req.identity, req.endpoints[0], 90)
                && req.project in reg.View() && reg.View()[req.project].Decoded?
                && var r := reg.View()[req.project].reg;
                   && r.project == req.project && r.identity == req.identity && r.contracts == req.contracts
                   && r.endpoint == req.endpoints[0] && r.registeredAt == now
                   && r.leaseExpiresAt == Some(now + 90 * SECOND)
      // The write is the broker step of this request.
      ensures reg.View() == LeaseRuns.Apply(old(reg.View()), Effect(roster, BrokerStep(now, Request(body, env))))
      // Never silent: exactly one event for every refusal, none otherwise.
      ensures emitted == old(emitted) +
                if !busConfigured || !reply.Refused? then []
                else if !body.Parsed? then [NotRegistered("", "", reply.code)]
                else if body.req.endpoints == [] then [NotRegistered(body.req.project, "", reply.code)]
                else [NotRegistered(body.req.project, body.req.endpoints[0].address, reply.code)]
    {
      if body.Unreadable? {
        reply := NotRegisteredReply(400, "", "", "unreadable_body");
        return;
      }
      if body.Malformed? {
        reply := NotRegisteredReply(400, "", "", "malformed_request");
        return;
      }
      var req := body.req;
      var addr := FirstAddress(req.endpoints);
      var v := Judge(req, env);
      forall w | Judged(roster, body, env, w) ensures w == v {
        VerdictIsUnique(Gates(roster, req, env), v, w);
      }
      if v.Fail? {
        reply := NotRegisteredReply(v.status, req.project, addr, v.code);
        return;
      }
      assert Gates(roster, req, env)[2].passes;
      var result := reg.Upsert(Record(req, now), env.marshals, env.commits);
      match result {
        case Held(holder) => reply := NotRegisteredReply(409, req.project, addr, "endpoint_held");
        case StoreFailed => reply := InternalError;
        case Recorded =>
          reply := if env.encodes then Accepted(req.identity, req.endpoints[0], LEASE_TTL_SECONDS) else InternalError;
      }
    }
  }

  // ---------- Whole runs of the broker ----------

  datatype BrokerOp =
    | Request(body: Body, env: Env)
    | Heartbeat(name: string)
    | ExpirySweep
    | Reboot

  datatype BrokerStep = BrokerStep(at: int, op: BrokerOp)

  /** Every gate passed and the claim reached the store. */
  ghost predicate Claims(roster: seq<string>, op: BrokerOp) {
    && op.Request? && op.body.Parsed? && op.env.marshals && op.env.commits
    && AllPass(Gates(roster, op.body.req, op.env))
  }

  lemma PassedRequest(roster: seq<string>, req: RegisterRequest, env: Env)
    requires AllPass(Gates(roster, req, env))
    ensures req.project in roster && req.identity.project == req.project
    ensures req.endpoints != [] && req.endpoints[0].address != "" && env.healthy(req.endpoints[0])
    ensures REQUIRED_EMIT_SUBJECT in req.contracts.emits
    ensures forall i :: 0 <= i < |req.contracts.emits + req.contracts.consumes| ==>
              env.ask(i, (req.contracts.emits + req.contracts.consumes)[i]) == Exists
    ensures forall s :: s in req.contracts.serves ==> env.wellFormed(s)
  {
    var gates, cg := Gates(roster, req, env), ContractGates(req.contracts, env);
    assert gates[0].passes && gates[1].passes && gates[2].passes && gates[|gates| - 1].passes;
    assert AllPass(cg) by {
      assert forall i :: 0 <= i < |cg| ==> gates[3 + i] == cg[i];
    }
    PassedContracts(req.contracts, env);
  }

  lemma PassedContracts(c: Contracts, env: Env)
    requires AllPass(ContractGates(c, env))
    ensures REQUIRED_EMIT_SUBJECT in c.emits
    ensures forall i :: 0 <= i < |c.emits + c.consumes| ==> env.ask(i, (c.emits + c.consumes)[i]) == Exists
    ensures forall s :: s in c.serves ==> env.wellFormed(s)
  {
    var cg, subjects := ContractGates(c, env), c.emits + c.consumes;
    assert cg[0].passes;
    forall i | 0 <= i < |subjects| ensures env.ask(i, subjects[i]) == Exists {
      assert cg[1 + i].passes;
      assert cg[1 + i] == SubjectGate(env.ask(i, subjects[i]));
    }
    forall s | s in c.serves ensures env.wellFormed(s) {
      var i :| 0 <= i < |c.serves| && c.serves[i] == s;
      assert cg[1 + |subjects| + i].passes;
    }
  }

  /** What a broker step does to the registry. */
  ghost function Effect(roster: seq<string>, s: BrokerStep): (e: LeaseRuns.Step)
    ensures e.at == s.at
  {
    LeaseRuns.Step(s.at,
      match s.op
      case Request(body, env) =>
        if Claims(roster, s.op) then
          PassedRequest(roster, body.req, env);
          LeaseRuns.Claim(Record(body.req, s.at))
        else LeaseRuns.Nothing
      case Heartbeat(name) => LeaseRuns.Beat(name, DEFAULT_LEASE_TTL)
      case ExpirySweep => LeaseRuns.Sweep
      case Reboot => LeaseRuns.WarmStart(WARM_START_GRACE))
  }

  ghost function Trace(roster: seq<string>, steps: seq<BrokerStep>): (t: seq<LeaseRuns.Step>)
    ensures |t| == |steps| && forall i :: 0 <= i < |t| ==> t[i] == Effect(roster, steps[i])
  {
    seq(|steps|, i requires 0 <= i < |steps| => Effect(roster, steps[i]))
  }

  ghost function Broker(roster: seq<string>, steps: seq<BrokerStep>): Store {
    LeaseRuns.Run(map[], Trace(roster, steps))
  }

  /** The request at step `i` passed every gate and is where this registration comes from. */
  ghost predicate CameFrom(roster: seq<string>, steps: seq<BrokerStep>, i: int, r: Registration) {
    && 0 <= i < |steps| && Claims(roster, steps[i].op)
    && var req := steps[i].op.body.req;
       && req.endpoints != [] && r.endpoint == req.endpoints[0] && r.registeredAt == steps[i].at
       && r.project == req.project && r.identity == req.identity && r.contracts == req.contracts
  }

  /** A registration that was admitted through the gates at some step of the run. */
  ghost predicate Admitted(roster: seq<string>, steps: seq<BrokerStep>, r: Registration) {
    && r.project in roster && r.identity.project == r.project
    && r.endpoint.address != "" && REQUIRED_EMIT_SUBJECT in r.contracts.emits
    && exists i :: CameFrom(roster, steps, i, r) && steps[i].op.env.healthy(r.endpoint)
  }

  lemma AdmittedLater(roster: seq<string>, steps: seq<BrokerStep>, more: BrokerStep, r: Registration,
                      lease: Option<int>)
    requires Admitted(roster, steps, r)
    ensures Admitted(roster, steps + [more], r.(leaseExpiresAt := lease))
  {
    var i :| CameFrom(roster, steps, i, r) && steps[i].op.env.healthy(r.endpoint);
    assert (steps + [more])[i] == steps[i];
    assert CameFrom(roster, steps + [more], i, r.(leaseExpiresAt := lease));
  }

  lemma AdmittedNow(roster: seq<string>, steps: seq<BrokerStep>, s: BrokerStep)
    requires Claims(roster, s.op)
    ensures s.op.body.req.endpoints != [] && Admitted(roster, steps + [s], Record(s.op.body.req, s.at))
  {
    PassedRequest(roster, s.op.body.req, s.op.env);
    var i := |steps|;
    assert (steps + [s])[i] == s;
    assert CameFrom(roster, steps + [s], i, Record(s.op.body.req, s.at));
  }

  ghost predicate AllAdmitted(roster: seq<string>, steps: seq<BrokerStep>, m: Store) {
    forall k :: k in m ==> m[k].Decoded? && Admitted(roster, steps, m[k].reg)
  }

  lemma ClaimKeepsAdmitted(roster: seq<string>, init: seq<BrokerStep>, s: BrokerStep, m: Store)
    requires AllAdmitted(roster, init, m) && Claims(roster, s.op)
    ensures AllAdmitted(roster, init + [s], LeaseRuns.Apply(m, Effect(roster, s)))
  {
    PassedRequest(roster, s.op.body.req, s.op.env);
    var claim := Record(s.op.body.req, s.at);
    var m' := LeaseRuns.Apply(m, Effect(roster, s));
    AdmittedNow(roster, init, s);
    forall k | k in m' ensures m'[k].Decoded? && Admitted(roster, init + [s], m'[k].reg) {
      if m'[k] != Decoded(claim) {
        AdmittedLater(roster, init, s, m[k].reg, m[k].reg.leaseExpiresAt);
      }
    }
  }

  /** Nothing was added or decoded anew, and only leases differ. */
  ghost predicate OnlyLeases(before: Store, after: Store) {
    && after.Keys <= before.Keys
    && forall k :: k in after && before[k].Decoded? ==>
         after[k].Decoded? && after[k].reg == before[k].reg.(leaseExpiresAt := after[k].reg.leaseExpiresAt)
  }

  lemma OthersChangeOnlyLeases(m: Store, s: LeaseRuns.Step)
    requires s.op.Beat? || s.op.Sweep? || s.op.WarmStart? || s.op.Nothing?
    ensures OnlyLeases(m, LeaseRuns.Apply(m, s))
  {
  }

  lemma EffectKeepsAdmitted(roster: seq<string>, init: seq<BrokerStep>, s: BrokerStep, m: Store)
    requires AllAdmitted(roster, init, m)
    ensures AllAdmitted(roster, init + [s], LeaseRuns.Apply(m, Effect(roster, s)))
  {
    if Claims(roster, s.op) {
      ClaimKeepsAdmitted(roster, init, s, m);
    } else {
      var m' := LeaseRuns.Apply(m, Effect(roster, s));
      OthersChangeOnlyLeases(m, Effect(roster, s));
      forall k | k in m' ensures m'[k].Decoded? && Admitted(roster, init + [s], m'[k].reg) {
        AdmittedLater(roster, init, s, m[k].reg, m'[k].reg.leaseExpiresAt);
      }
    }
  }

  lemma TraceFollowsPolicy(roster: seq<string>, steps: seq<BrokerStep>)
    ensures LeaseRuns.Policy(Trace(roster, steps))
  {
    forall i | 0 <= i < |steps| && Claims(roster, steps[i].op)
      ensures Trace(roster, steps)[i].op.reg.leaseExpiresAt == Some(steps[i].at + DEFAULT_LEASE_TTL)
    {
      PassedRequest(roster, steps[i].op.body.req, steps[i].op.env);
    }
  }

  lemma BrokerSnoc(roster: seq<string>, steps: seq<BrokerStep>, s: BrokerStep)
    ensures Broker(roster, steps + [s]) == LeaseRuns.Apply(Broker(roster, steps), Effect(roster, s))
  {
    assert Trace(roster, steps + [s])[..|steps|] == Trace(roster, steps);
  }

  lemma BrokerConcat(roster: seq<string>, a: seq<BrokerStep>, b: seq<BrokerStep>)
    ensures Broker(roster, a + b) == LeaseRuns.Run(Broker(roster, a), Trace(roster, b))
  {
    assert Trace(roster, a + b) == Trace(roster, a) + Trace(roster, b);
    LeaseRuns.RunConcat(map[], Trace(roster, a), Trace(roster, b));
  }

  /**
   Over every broker run each stored registration was admitted through all gates, at the endpoint that answered
   /health, and is that request's own but for its lease.
   */
  lemma {:induction false} BrokerStoresOnlyAdmitted(roster: seq<string>, steps: seq<BrokerStep>)
    ensures AllAdmitted(roster, steps, Broker(roster, steps))
  {
    if steps != [] {
      var n := |steps| - 1;
      BrokerStoresOnlyAdmitted(roster, steps[..n]);
      EffectKeepsAdmitted(roster, steps[..n], steps[n], Broker(roster, steps[..n]));
      BrokerSnoc(roster, steps[..n], steps[n]);
      assert steps == steps[..n] + [steps[n]];
    }
  }

  /** A broker run is a registry run under the lease policy: addresses stay exclusive and leases stay bounded. */
  lemma BrokerRunIsALeaseRun(roster: seq<string>, steps: seq<BrokerStep>, now: int)
    requires forall i :: 0 <= i < |steps| ==> steps[i].at <= now
    ensures LeaseRuns.Exclusive(Broker(roster, steps)) && Keyed(Broker(roster, steps))
    ensures LeaseRuns.LeasesWithin(Broker(roster, steps), now + DEFAULT_LEASE_TTL)
  {
    LeaseRuns.RunKeepsExclusive(Trace(roster, steps));
    TraceFollowsPolicy(roster, steps);
    LeaseRuns.LeasesAreBounded(Trace(roster, steps), now);
  }

  // ---------- From the accepted request to the live service ----------

  /** A request of this project, accepted or not, that names another service. */
  predicate OtherService(op: BrokerOp, p: string, svc: string) {
    op.Request? && op.body.Parsed? && op.body.req.project == p && op.body.req.identity.serviceName != svc
  }

  /** The daemon stays up from `t0` on, and the project never asks to run as another service. */
  ghost predicate Uninterrupted(steps: seq<BrokerStep>, p: string, svc: string, t0: int) {
    && (forall i :: 0 <= i < |steps| ==> t0 <= steps[i].at)
    && (forall i, j :: 0 <= i < j < |steps| ==> steps[i].at <= steps[j].at)
    && (forall i :: 0 <= i < |steps| ==> !steps[i].op.Reboot? && !OtherService(steps[i].op, p, svc))
  }

  /**
   Heartbeats of the service at these steps, the first less than `first` after `t0`, the next ones less than 90 s apart,
   and so on to the end of the run.
   */
  ghost predicate Heartbeats(steps: seq<BrokerStep>, svc: string, beats: seq<nat>, t0: int, first: int) {
    && (forall k :: 0 <= k < |beats| ==> beats[k] < |steps| && steps[beats[k]].op == Heartbeat(svc))
    && (forall k :: 0 < k < |beats| ==>
          beats[k - 1] < beats[k] && steps[beats[k]].at < steps[beats[k - 1]].at + 90 * SECOND)
    && (beats != [] ==> steps[beats[0]].at < t0 + first)
    && (forall i :: 0 <= i < |steps| && (beats != [] ==> beats[|beats| - 1] < i) ==>
          steps[i].at < if beats == [] then t0 + first else steps[beats[|beats| - 1]].at + 90 * SECOND)
  }

  lemma TraceKeepsBeating(roster: seq<string>, steps: seq<BrokerStep>, p: string, svc: string, beats: seq<nat>,
                          t0: int, first: int)
    requires Uninterrupted(steps, p, svc, t0) && Heartbeats(steps, svc, beats, t0, first)
    ensures var trace := Trace(roster, steps);
            LeaseRuns.Monotone(trace, t0) && LeaseRuns.Daemon(trace, p, svc)
            && LeaseRuns.BeatsInTime(trace, svc, beats, t0, first)
  {
    var trace := Trace(roster, steps);
    forall i | 0 <= i < |steps| && Claims(roster, steps[i].op) && steps[i].op.body.req.project == p
      ensures trace[i].op.reg.identity.serviceName == svc
      ensures trace[i].op.reg.leaseExpiresAt == Some(steps[i].at + DEFAULT_LEASE_TTL)
    {
      PassedRequest(roster, steps[i].op.body.req, steps[i].op.env);
      assert !OtherService(steps[i].op, p, svc);
    }
    forall k | 0 <= k < |beats| ensures LeaseRuns.BeatAt(trace, beats[k], svc) {
      assert trace[beats[k]] == Effect(roster, steps[beats[k]]);
    }
  }

  /** No other project's decodable registration is at the address. */
  ghost predicate AddressIsFree(m: Store, p: string, addr: string) {
    forall k :: LeaseRuns.HeldBy(m, k, addr) ==> k == p
  }

  /** A request that passes every gate, at an address no other project holds, is live as the service it asked for. */
  lemma AcceptedIsLive(roster: seq<string>, before: seq<BrokerStep>, s: BrokerStep)
    requires Claims(roster, s.op) && s.op.body.req.project != "" && s.op.body.req.endpoints != []
    requires AddressIsFree(Broker(roster, before), s.op.body.req.project, s.op.body.req.endpoints[0].address)
    ensures var m, req := Broker(roster, before + [s]), s.op.body.req;
            && LeaseRuns.Live(m, req.project, req.identity.serviceName)
            && m[req.project].reg.leaseExpiresAt == Some(s.at + 90 * SECOND)
  {
    BrokerSnoc(roster, before, s);
    var claim := Record(s.op.body.req, s.at);
    LeaseRuns.FreeAddressIsGranted(Trace(roster, before), s.at, claim);
    LeaseRuns.RunConcat(map[], Trace(roster, before), [Effect(roster, s)]);
    LeaseRuns.RunOne(Broker(roster, before), Effect(roster, s));
  }

  /**
   From the accepted request on: while heartbeats of the service it named come less than 90 s apart, the project is live
   as that service, whatever else the broker is asked and whenever it sweeps.
   */
  lemma AcceptedServiceStays(roster: seq<string>, before: seq<BrokerStep>, s: BrokerStep, after: seq<BrokerStep>,
                             beats: seq<nat>)
    requires Claims(roster, s.op) && s.op.body.req.project != "" && s.op.body.req.endpoints != []
    requires AddressIsFree(Broker(roster, before), s.op.body.req.project, s.op.body.req.endpoints[0].address)
    requires s.op.body.req.identity.serviceName != ""
    requires Uninterrupted(after, s.op.body.req.project, s.op.body.req.identity.serviceName, s.at)
    requires Heartbeats(after, s.op.body.req.identity.serviceName, beats, s.at, 90 * SECOND)
    ensures LeaseRuns.Live(Broker(roster, before + [s] + after), s.op.body.req.project,
                           s.op.body.req.identity.serviceName)
  {
    var p, svc := s.op.body.req.project, s.op.body.req.identity.serviceName;
    AcceptedIsLive(roster, before, s);
    TraceKeepsBeating(roster, after, p, svc, beats, s.at, DEFAULT_LEASE_TTL);
    LeaseRuns.RegularServiceStays(Broker(roster, before + [s]), p, svc, Trace(roster, after), beats, s.at);
    BrokerConcat(roster, before + [s], after);
  }

  /** Across a reboot too, when the first heartbeat comes less than 30 s after it. */
  lemma ServiceSurvivesReboot(roster: seq<string>, before: seq<BrokerStep>, at: int, after: seq<BrokerStep>, p: string,
                              svc: string, beats: seq<nat>)
    requires LeaseRuns.Live(Broker(roster, before), p, svc) && svc != ""
    requires Uninterrupted(after, p, svc, at) && Heartbeats(after, svc, beats, at, 30 * SECOND)
    ensures LeaseRuns.Live(Broker(roster, before + ([BrokerStep(at, Reboot)] + after)), p, svc)
  {
    var boot := BrokerStep(at, Reboot);
    TraceKeepsBeating(roster, after, p, svc, beats, at, WARM_START_GRACE);
    LeaseRuns.RegularServiceSurvivesReboot(Broker(roster, before), p, svc, Trace(roster, after), beats, at);
    assert Trace(roster, [boot] + after) == [Effect(roster, boot)] + Trace(roster, after);
    BrokerConcat(roster, before, [boot] + after);
  }

  /** A service without a heartbeat or a request of its project since `t` is gone after a sweep 90 s later, for good. */
  lemma SilentServiceIsExpired(roster: seq<string>, before: seq<BrokerStep>, after: seq<BrokerStep>, p: string,
                               svc: string, t: int, sweep: nat)
    requires LeaseRuns.Live(Broker(roster, before), p, svc) && forall i :: 0 <= i < |before| ==> before[i].at <= t
    requires forall i :: 0 <= i < |after| ==>
               match after[i].op
               case Request(body, _) => body.Parsed? ==> body.req.project != p
               case Heartbeat(name) => name != svc
               case ExpirySweep => true
               case Reboot => false
    requires sweep < |after| && after[sweep].op == ExpirySweep && t + 90 * SECOND <= after[sweep].at
    ensures p !in Broker(roster, before + after)
  {
    var trace := Trace(roster, after);
    TraceFollowsPolicy(roster, before);
    forall i | 0 <= i < |after| && Claims(roster, after[i].op) ensures trace[i].op.reg.project != p {
      PassedRequest(roster, after[i].op.body.req, after[i].op.env);
    }
    assert trace[sweep] == Effect(roster, after[sweep]);
    assert LeaseRuns.SweptAtOrAfter(trace, t + DEFAULT_LEASE_TTL);
    LeaseRuns.SilentSinceIsGone(Trace(roster, before), trace, p, svc, t);
    BrokerConcat(roster, before, after);
    LeaseRuns.RunConcat(map[], Trace(roster, before), trace);
  }
}
