/**
 The lease registry: live registrations kept in one bucket keyed by project.
 Every operation is one transaction: it works on a copy and publishes it only when the commit succeeds.
 The clock reading of an operation is a parameter; instants and durations are integer nanoseconds.
 */
module Registry {
  import opened Ordering
  import opened Sequences
  import opened Bucket
  import opened Wrappers

  const SECOND := 1_000_000_000
  const DEFAULT_LEASE_TTL := 90 * SECOND
  const WARM_START_GRACE := 30 * SECOND
  const DEFAULT_SWEEP_INTERVAL := 15 * SECOND

  /** Protobuf getters read an absent message as its empty value, so absence is not modelled apart from that. */
  datatype Identity = Identity(project: string, serviceName: string)
  datatype Contracts = Contracts(emits: seq<string>, consumes: seq<string>, serves: seq<string>)
  datatype Endpoint = Endpoint(scheme: string, address: string)
  datatype Registration = Registration(
    project: string, identity: Identity, contracts: Contracts, endpoint: Endpoint,
    registeredAt: int, leaseExpiresAt: Option<int>)

  /** A stored value either decodes to a registration or is corrupt. */
  datatype Value = Decoded(reg: Registration) | Corrupt(raw: seq<bv8>)

  type Store = map<string, Value>

  datatype UpsertResult = Recorded | Held(holder: string) | StoreFailed

  /** How a transaction that re-stamps leases ends: a value may not marshal, the n-th put or the commit may fail. */
  datatype Ending = Commits | MarshalFails | PutFails(n: nat) | CommitFails

  // ---------- What each operation means, as one map update ----------

  /** The project under key `k` holds `addr` against a claim by `project`. */
  predicate Rival(m: Store, project: string, addr: string, k: string) {
    addr != "" && k in m && k != project && m[k].Decoded? && m[k].reg.endpoint.address == addr
  }

  ghost predicate Contested(m: Store, reg: Registration) {
    exists k :: Rival(m, reg.project, reg.endpoint.address, k)
  }

  /** The holder an Upsert reports: the first rival in key order. */
  ghost predicate FirstRival(m: Store, reg: Registration, h: string) {
    && Rival(m, reg.project, reg.endpoint.address, h)
    && forall k :: Rival(m, reg.project, reg.endpoint.address, k) ==> k == h || Less(h, k)
  }

  /** The effect of a claim: refused when contested, and by the bucket itself when the key is empty. */
  ghost function Claimed(m: Store, reg: Registration): Store {
    if reg.project == "" || Contested(m, reg) then m else m[reg.project := Decoded(reg)]
  }

  /** A claim changes nothing when another project's decodable registration has its address, else one entry. */
  lemma ClaimedMeans(m: Store, reg: Registration)
    requires reg.project != ""
    ensures Claimed(m, reg) ==
            if reg.endpoint.address != "" && exists k ::
                 k in m && k != reg.project && m[k].Decoded? && m[k].reg.endpoint.address == reg.endpoint.address
            then m else m[reg.project := Decoded(reg)]
  {
    var addr := reg.endpoint.address;
    if k :| addr != "" && k in m && k != reg.project && m[k].Decoded? && m[k].reg.endpoint.address == addr {
      assert Rival(m, reg.project, addr, k);
    }
  }

  predicate Beats(v: Value, name: string) {
    name != "" && v.Decoded? && v.reg.identity.serviceName == name
  }

  ghost predicate AnyBeat(m: Store, name: string) {
    exists k :: k in m && Beats(m[k], name)
  }

  ghost function Beaten(m: Store, name: string): set<string> {
    set k | k in m && Beats(m[k], name)
  }

  /** A lease is due when it is absent or at or before now; a corrupt value is never due. */
  predicate Due(v: Value, now: int) {
    v.Decoded? && (v.reg.leaseExpiresAt.None? || v.reg.leaseExpiresAt.value <= now)
  }

  function Stamped(v: Value, until: int): Value
    requires v.Decoded?
  {
    Decoded(v.reg.(leaseExpiresAt := Some(until)))
  }

  ghost function Refreshed(m: Store, name: string, until: int): (r: Store)
    ensures r.Keys == m.Keys
  {
    map k | k in m :: if Beats(m[k], name) then Stamped(m[k], until) else m[k]
  }

  ghost function Swept(m: Store, now: int): Store {
    map k | k in m && !Due(m[k], now) :: m[k]
  }

  ghost function Restamped(m: Store, until: int): (r: Store)
    ensures r.Keys == m.Keys
  {
    map k | k in m :: if m[k].Decoded? then Stamped(m[k], until) else m[k]
  }

  /** `regs` lists, in key order and without repetition, exactly the registrations under the keys picked out of `m`. */
  ghost predicate Lists(regs: seq<Registration>, keys: seq<string>, m: Store, now: int) {
    && |keys| == |regs|
    && (forall i, j :: 0 <= i < j < |keys| ==> Less(keys[i], keys[j]))
    && (forall i :: 0 <= i < |keys| ==> keys[i] in m && Due(m[keys[i]], now) && m[keys[i]].reg == regs[i])
    && (forall k :: k in m && Due(m[k], now) ==> k in keys)
  }

  /** Some key of the store holds exactly this registration. */
  ghost predicate Holds(m: Store, r: Registration) {
    exists k :: k in m && m[k] == Decoded(r)
  }

  /** The keys under which exactly this registration is stored. */
  ghost function Holders(m: Store, r: Registration): set<string> {
    set k | k in m && m[k] == Decoded(r)
  }

  ghost predicate SortedByProject(regs: seq<Registration>) {
    forall i, j :: 0 <= i < j < |regs| ==> !Less(regs[j].project, regs[i].project)
  }

  /** Every decodable value sits under its own project's non-empty key. */
  ghost predicate Keyed(m: Store) {
    forall k :: k in m && m[k].Decoded? ==> k != "" && m[k].reg.project == k
  }

  // ---------- The store ----------

  class Registry {
    var entries: seq<Entry<Value>>

    ghost predicate Valid() reads this { Ordered(entries) }

    ghost function View(): Store
      reads this
      requires Valid()
    {
      Contents(entries)
    }

    constructor ()
      ensures Valid() && View() == map[]
    {
      entries := [];
    }

    method Upsert(reg: Registration, marshals: bool, commits: bool) returns (r: UpsertResult)
      requires Valid()
      modifies this
      ensures Valid()
      ensures !marshals ==> r == StoreFailed
      ensures marshals && Contested(old(View()), reg) ==> r.Held? && FirstRival(old(View()), reg, r.holder)
      ensures marshals && !Contested(old(View()), reg) ==>
                r == if commits && reg.project != "" then Recorded else StoreFailed
      ensures View() == if r == Recorded then old(View())[reg.project := Decoded(reg)] else old(View())
      ensures marshals && commits ==> View() == Claimed(old(View()), reg)
      // Told outright: only another project's decodable registration at the same non-empty address stands in the way.
      ensures marshals && commits && reg.project != "" ==>
                var m, addr := old(View()), reg.endpoint.address;
                if addr != "" && exists k ::
                     k in m && k != reg.project && m[k].Decoded? && m[k].reg.endpoint.address == addr
                then
                  && r.Held? && r.holder != reg.project && r.holder in m
                  && m[r.holder].Decoded? && m[r.holder].reg.endpoint.address == addr && View() == m
                else r == Recorded && View() == m[reg.project := Decoded(reg)]
    {
      if reg.project != "" {
        ClaimedMeans(View(), reg);
      }
      if !marshals {
        return StoreFailed;
      }
      var addr := reg.endpoint.address;
      Stores(entries);
      if addr != "" {
        for i := 0 to |entries|
          invariant entries == old(entries)
          invariant forall j :: 0 <= j < i ==> !Rival(View(), reg.project, addr, entries[j].key)
        {
          var e := entries[i];
          if e.key == reg.project || e.value.Corrupt? {
            continue;
          }
          if e.value.reg.endpoint.address == addr {
            assert Rival(View(), reg.project, addr, e.key);
            return Held(e.key);
          }
        }
      }
      // An empty key is refused by the bucket itself.
      if reg.project == "" || !commits {
        return StoreFailed;
      }
      entries := Put(entries, reg.project, Decoded(reg));
      return Recorded;
    }

    method Delete(project: string, commits: bool) returns (ok: bool)
      requires Valid()
      modifies this
      ensures Valid() && ok == commits
      ensures View() == if commits then old(View()) - {project} else old(View())
    {
      var tx := Bucket.Delete(entries, project);
      ok := commits;
      if commits {
        entries := tx;
      }
    }

    method Get(project: string) returns (r: Option<Registration>)
      requires Valid()
      ensures r == if project in View() && View()[project].Decoded? then Some(View()[project].reg) else None
    {
      var at := Find(entries, project);
      if at < 0 || entries[at].value.Corrupt? {
        return None;
      }
      return Some(entries[at].value.reg);
    }

    /** Decodable registrations ordered by project, one for each key that holds it; corrupt values are skipped. */
    method List() returns (regs: seq<Registration>)
      requires Valid()
      ensures SortedByProject(regs)
      ensures forall r :: multiset(regs)[r] == |Holders(View(), r)|
      ensures forall r :: r in regs <==> Holds(View(), r)
      ensures Keyed(View()) ==> forall i, j :: 0 <= i < j < |regs| ==> Less(regs[i].project, regs[j].project)
    {
      regs := [];
      for i := 0 to |entries|
        invariant SortedByProject(regs)
        invariant multiset(regs) == multiset(DecodedRegs(entries[..i]))
      {
        assert entries[..i + 1][..i] == entries[..i];
        if entries[i].value.Decoded? {
          regs := InsertByProject(regs, entries[i].value.reg);
        }
      }
      assert entries[..|entries|] == entries;
      ListIsDecoded(entries, regs);
    }

    /**
     On success it reports whether there was such a registration; on failure, whether one had been put. A failure counts
     only where the transaction reaches it.
     */
    method RefreshLease(name: string, ttl: int, now: int, ending: Ending) returns (refreshed: bool, ok: bool)
      requires Valid()
      modifies this
      ensures Valid()
      ensures name == "" ==> ok && !refreshed
      ensures name != "" ==>
                var m := old(View());
                var matching := set k | k in m && m[k].Decoded? && m[k].reg.identity.serviceName == name;
                match ending
                case Commits => ok && (refreshed <==> matching != {})
                case MarshalFails => (ok <==> matching == {}) && !refreshed
                case PutFails(n) =>
                  && (ok <==> |matching| <= n)
                  && (refreshed <==> if ok then matching != {} else n > 0)
                case CommitFails => !ok && (refreshed <==> matching != {})
      ensures View() == if ok then Refreshed(old(View()), name, now + ttl) else old(View())
      ensures ok ==> View().Keys == old(View()).Keys && forall k :: k in View() ==>
                var v := old(View())[k];
                View()[k] == if name != "" && v.Decoded? && v.reg.identity.serviceName == name
                             then Decoded(v.reg.(leaseExpiresAt := Some(now + ttl))) else v
    {
      if name == "" {
        NoNameNoBeat(View(), now + ttl);
        return false, true;
      }
      var es := entries;
      var updates := CollectBeats(es, name, now + ttl);
      AnyIsBeaten(View(), name);
      assert Beaten(View(), name) == set k | k in View() && Beats(View()[k], name);
      assert Beaten(View(), name) ==
        set k | k in View() && View()[k].Decoded? && View()[k].reg.identity.serviceName == name;
      if ending.MarshalFails? && updates != [] {
        return false, false;
      }
      if ending.PutFails? && ending.n < |updates| {
        return ending.n > 0, false;
      }
      var tx := ApplyUpdates(es, updates, Refreshed(View(), name, now + ttl));
      refreshed := updates != [];
      ok := ending != CommitFails;
      if ok {
        entries := tx;
      }
    }

    method ExpireDue(now: int, commits: bool) returns (expired: seq<Registration>, ok: bool)
      requires Valid()
      modifies this
      ensures Valid()
      ensures exists keys :: Lists(expired, keys, old(View()), now)
      ensures ok == commits
      ensures commits ==> View() == Swept(old(View()), now)
      ensures commits ==> forall k :: k in View() <==>
                k in old(View()) && (old(View())[k].Decoded? ==>
                  var lease := old(View())[k].reg.leaseExpiresAt; lease.Some? && now < lease.value)
      ensures forall r :: r in expired <==> exists k ::
                k in old(View()) && old(View())[k] == Decoded(r) &&
                (r.leaseExpiresAt == None || r.leaseExpiresAt.value <= now)
      ensures !commits ==> View() == old(View())
    {
      expired := [];
      var dueKeys: seq<string> := [];
      for i := 0 to |entries|
        invariant entries == old(entries)
        invariant DueUpTo(entries, i, dueKeys, expired, now)
      {
        var e := entries[i];
        if e.value.Decoded? && (e.value.reg.leaseExpiresAt.None? || e.value.reg.leaseExpiresAt.value <= now) {
          DueTake(entries, i, dueKeys, expired, now);
          dueKeys := dueKeys + [e.key];
          expired := expired + [e.value.reg];
        } else {
          DueSkip(entries, i, dueKeys, expired, now);
        }
      }
      DueIsLists(entries, dueKeys, expired, now);
      var tx := DeleteAll(entries, dueKeys);
      ok := commits;
      if commits {
        SweptIsDeletion(View(), dueKeys, now);
        entries := tx;
      }
      assert Lists(expired, dueKeys, old(View()), now);
      ListsMembers(expired, dueKeys, old(View()), now);
    }

    method ReconcileWarmStart(grace: int, now: int, commits: bool) returns (ok: bool)
      requires Valid()
      modifies this
      ensures Valid() && ok == commits
      ensures commits ==> View() == Restamped(old(View()), now + grace)
      ensures commits ==> View().Keys == old(View()).Keys && forall k :: k in View() ==>
                var v := old(View())[k];
                View()[k] == if v.Decoded? then Decoded(v.reg.(leaseExpiresAt := Some(now + grace))) else v
      ensures !commits ==> View() == old(View())
    {
      var es := entries;
      var updates := CollectDecodable(es, now + grace);
      var tx := ApplyUpdates(es, updates, Restamped(View(), now + grace));
      ok := commits;
      if commits {
        entries := tx;
      }
    }
  }

  // ---------- Collect, then apply ----------

  lemma NoNameNoBeat(m: Store, until: int)
    ensures !AnyBeat(m, "") && Refreshed(m, "", until) == m
  {
  }

  /** The scan of RefreshLease: one re-stamped pair for each entry the heartbeat is for. */
  method CollectBeats(es: seq<Entry<Value>>, name: string, until: int)
      returns (updates: seq<Entry<Value>>)
    requires Ordered(es) && name != ""
    ensures CollectedUpTo(es, |es|, updates, Refreshed(Contents(es), name, until))
    ensures |updates| == |Beaten(Contents(es), name)|
  {
    updates := [];
    ghost var after := Refreshed(Contents(es), name, until);
    for i := 0 to |es|
      invariant CollectedUpTo(es, i, updates, after)
      invariant |updates| == |BeatenUpTo(es, i, name)|
    {
      var e := es[i];
      if e.value.Corrupt? || e.value.reg.identity.serviceName != name {
        PassEntry(es, i, name, until, updates, after);
        continue;
      }
      TakeEntry(es, i, name, until, updates, after);
      updates := updates + [Entry(e.key, Stamped(e.value, until))];
    }
    BeatenInStore(es, name);
  }

  lemma PassEntry(es: seq<Entry<Value>>, i: nat, name: string, until: int, us: seq<Entry<Value>>, after: Store)
    requires Ordered(es) && i < |es| && !Beats(es[i].value, name)
    requires after == Refreshed(Contents(es), name, until) && CollectedUpTo(es, i, us, after)
    ensures CollectedUpTo(es, i + 1, us, after) && |BeatenUpTo(es, i + 1, name)| == |BeatenUpTo(es, i, name)|
  {
    Stores(es);
    BeatenStep(es, i, name);
    CollectSkip(es, i, us, after);
  }

  lemma TakeEntry(es: seq<Entry<Value>>, i: nat, name: string, until: int, us: seq<Entry<Value>>, after: Store)
    requires Ordered(es) && i < |es| && Beats(es[i].value, name)
    requires after == Refreshed(Contents(es), name, until) && CollectedUpTo(es, i, us, after)
    ensures CollectedUpTo(es, i + 1, us + [Entry(es[i].key, Stamped(es[i].value, until))], after)
    ensures |BeatenUpTo(es, i + 1, name)| == |BeatenUpTo(es, i, name)| + 1
  {
    Stores(es);
    BeatenStep(es, i, name);
    CollectStep(es, i, us, Stamped(es[i].value, until), after);
  }

  lemma AnyIsBeaten(m: Store, name: string)
    ensures AnyBeat(m, name) <==> |Beaten(m, name)| > 0
  {
    if AnyBeat(m, name) {
      var k :| k in m && Beats(m[k], name);
      assert k in Beaten(m, name);
    }
  }

  ghost function BeatenUpTo(es: seq<Entry<Value>>, i: int, name: string): set<string> {
    set j | 0 <= j < i && j < |es| && Beats(es[j].value, name) :: es[j].key
  }

  lemma BeatenStep(es: seq<Entry<Value>>, i: nat, name: string)
    requires Ordered(es) && i < |es|
    ensures |BeatenUpTo(es, i + 1, name)| == |BeatenUpTo(es, i, name)| + if Beats(es[i].value, name) then 1 else 0
  {
    KeysDiffer(es);
    var before := BeatenUpTo(es, i, name);
    if Beats(es[i].value, name) {
      assert BeatenUpTo(es, i + 1, name) == before + {es[i].key};
    } else {
      assert BeatenUpTo(es, i + 1, name) == before;
    }
  }

  lemma BeatenInStore(es: seq<Entry<Value>>, name: string)
    requires Ordered(es)
    ensures BeatenUpTo(es, |es|, name) == Beaten(Contents(es), name)
  {
    Stores(es);
    forall k | k in Beaten(Contents(es), name) ensures k in BeatenUpTo(es, |es|, name) {
      var j :| 0 <= j < |es| && es[j].key == k;
      assert Beats(es[j].value, name);
    }
  }

  /** The scan of ReconcileWarmStart: one re-stamped pair for each decodable entry. */
  method CollectDecodable(es: seq<Entry<Value>>, until: int)
      returns (updates: seq<Entry<Value>>)
    requires Ordered(es)
    ensures CollectedUpTo(es, |es|, updates, Restamped(Contents(es), until))
  {
    Stores(es);
    updates := [];
    ghost var after := Restamped(Contents(es), until);
    for i := 0 to |es|
      invariant CollectedUpTo(es, i, updates, after)
    {
      if es[i].value.Corrupt? {
        CollectSkip(es, i, updates, after);
        continue;
      }
      CollectStep(es, i, updates, Stamped(es[i].value, until), after);
      updates := updates + [Entry(es[i].key, Stamped(es[i].value, until))];
    }
  }

  ghost function Applied(m: Store, us: seq<Entry<Value>>): Store {
    if us == [] then m else Applied(m, us[..|us| - 1])[us[|us| - 1].key := us[|us| - 1].value]
  }

  /** The second loop of a collect-then-apply transaction: put every collected pair. */
  method ApplyUpdates(es: seq<Entry<Value>>, updates: seq<Entry<Value>>, ghost after: Store)
    returns (tx: seq<Entry<Value>>)
    requires Ordered(es) && Contents(es).Keys == after.Keys && CollectedUpTo(es, |es|, updates, after)
    ensures Ordered(tx) && Contents(tx) == after
  {
    tx := es;
    for i := 0 to |updates|
      invariant Ordered(tx) && Contents(tx) == Applied(Contents(es), updates[..i])
    {
      assert updates[..i + 1][..i] == updates[..i];
      tx := Put(tx, updates[i].key, updates[i].value);
    }
    assert updates[..|updates|] == updates;
    CollectedIsWhole(es, updates, after);
  }

  ghost predicate Mentions(us: seq<Entry<Value>>, k: string) {
    exists i :: 0 <= i < |us| && us[i].key == k
  }

  /** The collected pairs are exactly what turns the first `i` entries into `after`. */
  ghost predicate CollectedUpTo(es: seq<Entry<Value>>, i: int, us: seq<Entry<Value>>, after: Store) {
    && (forall u :: 0 <= u < |us| ==> us[u].key in after && after[us[u].key] == us[u].value)
    && (forall j :: 0 <= j < i && j < |es| && es[j].key in after && after[es[j].key] != es[j].value ==>
         Mentions(us, es[j].key))
  }

  lemma CollectStep(es: seq<Entry<Value>>, i: nat, us: seq<Entry<Value>>, v: Value, after: Store)
    requires i < |es| && CollectedUpTo(es, i, us, after)
    requires es[i].key in after && after[es[i].key] == v
    ensures CollectedUpTo(es, i + 1, us + [Entry(es[i].key, v)], after)
  {
    var us' := us + [Entry(es[i].key, v)];
    forall j | 0 <= j <= i && es[j].key in after && after[es[j].key] != es[j].value ensures Mentions(us', es[j].key) {
      if j < i {
        var u :| 0 <= u < |us| && us[u].key == es[j].key;
        assert us'[u].key == es[j].key;
      } else {
        assert us'[|us|].key == es[j].key;
      }
    }
  }

  lemma CollectSkip(es: seq<Entry<Value>>, i: nat, us: seq<Entry<Value>>, after: Store)
    requires i < |es| && CollectedUpTo(es, i, us, after)
    requires es[i].key in after ==> after[es[i].key] == es[i].value
    ensures CollectedUpTo(es, i + 1, us, after)
  {
  }

  lemma MentionsLast(us: seq<Entry<Value>>, k: string)
    requires us != []
    ensures Mentions(us, k) <==> Mentions(us[..|us| - 1], k) || us[|us| - 1].key == k
  {
    var init := us[..|us| - 1];
    if Mentions(init, k) {
      var i :| 0 <= i < |init| && init[i].key == k;
      assert us[i].key == k;
    }
    if Mentions(us, k) {
      var i :| 0 <= i < |us| && us[i].key == k;
      assert i < |init| ==> init[i].key == k;
    }
  }

  lemma {:induction false} AppliedAt(m: Store, us: seq<Entry<Value>>, after: Store, k: string)
    requires forall u :: 0 <= u < |us| ==> us[u].key in after && after[us[u].key] == us[u].value
    ensures Mentions(us, k) ==> k in after && k in Applied(m, us) && Applied(m, us)[k] == after[k]
    ensures !Mentions(us, k) ==> (k in Applied(m, us) <==> k in m) && (k in m ==> Applied(m, us)[k] == m[k])
  {
    if us != [] {
      AppliedAt(m, us[..|us| - 1], after, k);
      MentionsLast(us, k);
    }
  }

  lemma CollectedIsWhole(es: seq<Entry<Value>>, us: seq<Entry<Value>>, after: Store)
    requires Ordered(es) && Contents(es).Keys == after.Keys && CollectedUpTo(es, |es|, us, after)
    ensures Applied(Contents(es), us) == after
  {
    var m := Contents(es);
    forall k ensures (k in Applied(m, us) <==> k in after) && (k in after ==> Applied(m, us)[k] == after[k]) {
      CollectedAt(es, us, after, k);
    }
    assert Applied(m, us) == after;
  }

  lemma CollectedAt(es: seq<Entry<Value>>, us: seq<Entry<Value>>, after: Store, k: string)
    requires Ordered(es) && Contents(es).Keys == after.Keys && CollectedUpTo(es, |es|, us, after)
    ensures k in Applied(Contents(es), us) <==> k in after
    ensures k in after ==> Applied(Contents(es), us)[k] == after[k]
  {
    Stores(es);
    AppliedAt(Contents(es), us, after, k);
    assert k in Contents(es) <==> k in after;
    if k in after {
      var j :| 0 <= j < |es| && es[j].key == k;
    }
  }

  ghost function Without(m: Store, keys: seq<string>): Store {
    if keys == [] then m else Without(m, keys[..|keys| - 1]) - {keys[|keys| - 1]}
  }

  method DeleteAll(es: seq<Entry<Value>>, keys: seq<string>) returns (tx: seq<Entry<Value>>)
    requires Ordered(es)
    ensures Ordered(tx) && Contents(tx) == Without(Contents(es), keys)
  {
    tx := es;
    for i := 0 to |keys|
      invariant Ordered(tx) && Contents(tx) == Without(Contents(es), keys[..i])
    {
      assert keys[..i + 1][..i] == keys[..i];
      tx := Bucket.Delete(tx, keys[i]);
    }
    assert keys[..|keys|] == keys;
  }

  lemma {:induction false} WithoutAt(m: Store, keys: seq<string>, k: string)
    ensures k in Without(m, keys) <==> k in m && k !in keys
    ensures k in Without(m, keys) ==> Without(m, keys)[k] == m[k]
  {
    if keys != [] {
      var init, last := keys[..|keys| - 1], keys[|keys| - 1];
      WithoutAt(m, init, k);
      assert keys == init + [last];
    }
  }

  lemma SweptIsDeletion(m: Store, keys: seq<string>, now: int)
    requires forall k :: k in keys <==> k in m && Due(m[k], now)
    ensures Without(m, keys) == Swept(m, now)
  {
    forall k ensures k in Without(m, keys) <==> k in Swept(m, now) {
      WithoutAt(m, keys, k);
    }
    forall k | k in Swept(m, now) ensures Without(m, keys)[k] == Swept(m, now)[k] {
      WithoutAt(m, keys, k);
    }
    assert Without(m, keys) == Swept(m, now);
  }

  ghost predicate DueAmong(es: seq<Entry<Value>>, i: int, k: string, reg: Registration, now: int) {
    exists j :: 0 <= j < i && j < |es| && es[j].key == k && Due(es[j].value, now) && es[j].value.reg == reg
  }

  /** The due entries among the first `i`, in key order. */
  ghost predicate DueUpTo(es: seq<Entry<Value>>, i: int, keys: seq<string>, regs: seq<Registration>, now: int) {
    && 0 <= i <= |es| && |keys| == |regs|
    && (forall a, b :: 0 <= a < b < |keys| ==> Less(keys[a], keys[b]))
    && (forall a :: 0 <= a < |keys| ==> DueAmong(es, i, keys[a], regs[a], now))
    && (forall j :: 0 <= j < i && Due(es[j].value, now) ==> es[j].key in keys)
  }

  lemma DueAmongNext(es: seq<Entry<Value>>, i: nat, k: string, reg: Registration, now: int)
    requires Ordered(es) && i < |es| && DueAmong(es, i, k, reg, now)
    ensures DueAmong(es, i + 1, k, reg, now) && Less(k, es[i].key)
  {
    var j :| 0 <= j < i && es[j].key == k && Due(es[j].value, now) && es[j].value.reg == reg;
    assert j < i + 1;
  }

  lemma DueSkip(es: seq<Entry<Value>>, i: nat, keys: seq<string>, regs: seq<Registration>, now: int)
    requires Ordered(es) && i < |es| && DueUpTo(es, i, keys, regs, now) && !Due(es[i].value, now)
    ensures DueUpTo(es, i + 1, keys, regs, now)
  {
    forall a | 0 <= a < |keys| ensures DueAmong(es, i + 1, keys[a], regs[a], now) {
      DueAmongNext(es, i, keys[a], regs[a], now);
    }
  }

  lemma DueTake(es: seq<Entry<Value>>, i: nat, keys: seq<string>, regs: seq<Registration>, now: int)
    requires Ordered(es) && i < |es| && DueUpTo(es, i, keys, regs, now) && Due(es[i].value, now)
    ensures DueUpTo(es, i + 1, keys + [es[i].key], regs + [es[i].value.reg], now)
  {
    var keys', regs' := keys + [es[i].key], regs + [es[i].value.reg];
    forall a | 0 <= a < |keys'|
      ensures DueAmong(es, i + 1, keys'[a], regs'[a], now)
      ensures a < |keys| ==> Less(keys'[a], es[i].key)
    {
      if a < |keys| {
        DueAmongNext(es, i, keys[a], regs[a], now);
      } else {
        assert es[i].key == keys'[a] && es[i].value.reg == regs'[a];
      }
    }
    forall j | 0 <= j < i + 1 && Due(es[j].value, now) ensures es[j].key in keys' {
      if j < i {
        assert es[j].key in keys;
      } else {
        assert keys'[|keys|] == es[j].key;
      }
    }
  }

  lemma DueIsLists(es: seq<Entry<Value>>, keys: seq<string>, regs: seq<Registration>, now: int)
    requires Ordered(es) && DueUpTo(es, |es|, keys, regs, now)
    ensures Lists(regs, keys, Contents(es), now)
    ensures forall k :: k in keys <==> k in Contents(es) && Due(Contents(es)[k], now)
  {
    Stores(es);
    var m := Contents(es);
    forall a | 0 <= a < |keys| ensures keys[a] in m && Due(m[keys[a]], now) && m[keys[a]].reg == regs[a] {
      assert DueAmong(es, |es|, keys[a], regs[a], now);
    }
    forall k | k in m && Due(m[k], now) ensures k in keys {
      var j :| 0 <= j < |es| && es[j].key == k;
    }
  }

  lemma ListsMembers(regs: seq<Registration>, keys: seq<string>, m: Store, now: int)
    requires Lists(regs, keys, m, now)
    ensures forall r :: r in regs <==> exists k ::
              k in m && m[k] == Decoded(r) && (r.leaseExpiresAt == None || r.leaseExpiresAt.value <= now)
  {
    forall r
      ensures r in regs <==> exists k ::
                k in m && m[k] == Decoded(r) && (r.leaseExpiresAt == None || r.leaseExpiresAt.value <= now)
    {
      if i :| 0 <= i < |regs| && regs[i] == r {
        assert m[keys[i]] == Decoded(r);
      }
      if k :| k in m && m[k] == Decoded(r) && (r.leaseExpiresAt == None || r.leaseExpiresAt.value <= now) {
        assert Due(m[k], now);
        var i :| 0 <= i < |keys| && keys[i] == k;
        assert regs[i] == r;
      }
    }
  }

  ghost function DecodedRegs(es: seq<Entry<Value>>): seq<Registration> {
    if es == [] then []
    else
      var last := es[|es| - 1].value;
      DecodedRegs(es[..|es| - 1]) + if last.Decoded? then [last.reg] else []
  }

  lemma {:induction false} DecodedRegsAre(es: seq<Entry<Value>>, r: Registration)
    ensures r in DecodedRegs(es) <==> exists i :: 0 <= i < |es| && es[i].value == Decoded(r)
  {
    if es != [] {
      var init := es[..|es| - 1];
      DecodedRegsAre(init, r);
      assert forall i :: 0 <= i < |init| ==> init[i] == es[i];
      if i :| 0 <= i < |es| && es[i].value == Decoded(r) {
        assert i < |init| ==> init[i].value == Decoded(r);
      }
    }
  }

  lemma DecodedRegsMeaning(es: seq<Entry<Value>>)
    requires Ordered(es)
    ensures forall r :: r in DecodedRegs(es) <==> Holds(Contents(es), r)
  {
    Stores(es);
    forall r ensures r in DecodedRegs(es) <==> Holds(Contents(es), r) {
      DecodedRegsAre(es, r);
      if i :| 0 <= i < |es| && es[i].value == Decoded(r) {
        assert es[i].key in Contents(es) && Contents(es)[es[i].key] == Decoded(r);
      }
      if k :| k in Contents(es) && Contents(es)[k] == Decoded(r) {
        var i :| 0 <= i < |es| && es[i].key == k;
        assert es[i].value == Decoded(r);
      }
    }
  }

  ghost function KeysOf(es: seq<Entry<Value>>, r: Registration): set<string> {
    set i | 0 <= i < |es| && es[i].value == Decoded(r) :: es[i].key
  }

  lemma {:induction false} CountKeys(es: seq<Entry<Value>>, r: Registration)
    requires Ordered(es)
    ensures multiset(DecodedRegs(es))[r] == |KeysOf(es, r)|
  {
    if es != [] {
      CountKeys(es[..|es| - 1], r);
      KeysOfLast(es, r);
    }
  }

  lemma KeysOfLast(es: seq<Entry<Value>>, r: Registration)
    requires Ordered(es) && es != []
    ensures var init, last := es[..|es| - 1], es[|es| - 1];
            |KeysOf(es, r)| == |KeysOf(init, r)| + if last.value == Decoded(r) then 1 else 0
  {
    var n := |es| - 1;
    var init, last := es[..n], es[n];
    KeysDiffer(es);
    forall k ensures k in KeysOf(es, r) <==> k in KeysOf(init, r) || (last.value == Decoded(r) && k == last.key) {
      if k in KeysOf(init, r) {
        var i :| 0 <= i < n && init[i].value == Decoded(r) && init[i].key == k;
        assert es[i] == init[i];
      }
      if k in KeysOf(es, r) {
        var i :| 0 <= i <= n && es[i].value == Decoded(r) && es[i].key == k;
        assert i < n ==> init[i] == es[i];
      }
    }
    if last.value == Decoded(r) {
      assert KeysOf(es, r) == KeysOf(init, r) + {last.key};
      assert last.key !in KeysOf(init, r) by {
        assert forall i :: 0 <= i < n ==> init[i] == es[i] && es[i].key != last.key;
      }
    } else {
      assert KeysOf(es, r) == KeysOf(init, r);
    }
  }

  lemma CountHolders(es: seq<Entry<Value>>, r: Registration)
    requires Ordered(es)
    ensures multiset(DecodedRegs(es))[r] == |Holders(Contents(es), r)|
  {
    Stores(es);
    CountKeys(es, r);
    forall k ensures k in KeysOf(es, r) <==> k in Holders(Contents(es), r) {
      if k in Holders(Contents(es), r) {
        var i :| 0 <= i < |es| && es[i].key == k;
        assert es[i].value == Decoded(r);
      }
    }
    assert KeysOf(es, r) == Holders(Contents(es), r);
  }

  /** In key order, values under their own keys are strictly ordered by project. */
  lemma DecodedRegsKeyed(es: seq<Entry<Value>>)
    requires Ordered(es) && Keyed(Contents(es))
    ensures forall i, j :: 0 <= i < j < |DecodedRegs(es)| ==>
            Less(DecodedRegs(es)[i].project, DecodedRegs(es)[j].project)
  {
    Stores(es);
    assert forall i :: 0 <= i < |es| && es[i].value.Decoded? ==> es[i].value.reg.project == es[i].key;
    DecodedRegsOrdered(es);
  }

  lemma {:induction false} DecodedRegsOrdered(es: seq<Entry<Value>>)
    requires Ordered(es) && forall i :: 0 <= i < |es| && es[i].value.Decoded? ==> es[i].value.reg.project == es[i].key
    ensures forall i, j :: 0 <= i < j < |DecodedRegs(es)| ==>
            Less(DecodedRegs(es)[i].project, DecodedRegs(es)[j].project)
  {
    if es != [] {
      var init, last := es[..|es| - 1], es[|es| - 1];
      DecodedRegsOrdered(init);
      forall r | r in DecodedRegs(init) ensures Less(r.project, last.key) {
        DecodedRegsAre(init, r);
        var i :| 0 <= i < |init| && init[i].value == Decoded(r);
        assert es[i] == init[i];
      }
    }
  }

  lemma SortedIsStrict(regs: seq<Registration>, strict: seq<Registration>)
    requires SortedByProject(regs) && multiset(regs) == multiset(strict)
    requires forall i, j :: 0 <= i < j < |strict| ==> Less(strict[i].project, strict[j].project)
    ensures forall i, j :: 0 <= i < j < |regs| ==> Less(regs[i].project, regs[j].project)
  {
    forall i, j | 0 <= i < j < |regs| ensures Less(regs[i].project, regs[j].project) {
      LessTotal(regs[i].project, regs[j].project);
      if regs[i].project == regs[j].project {
        assert regs[i] in multiset(strict) && regs[j] in multiset(strict);
        var a :| 0 <= a < |strict| && strict[a] == regs[i];
        var b :| 0 <= b < |strict| && strict[b] == regs[j];
        LessIrreflexive(regs[i].project);
        assert a == b;
        TwiceInMultiset(regs, i, j);
        OnceInMultiset(strict, a);
        assert false;
      }
    }
  }

  lemma ListIsDecoded(es: seq<Entry<Value>>, regs: seq<Registration>)
    requires Ordered(es) && SortedByProject(regs) && multiset(regs) == multiset(DecodedRegs(es))
    ensures forall r :: multiset(regs)[r] == |Holders(Contents(es), r)|
    ensures forall r :: r in regs <==> Holds(Contents(es), r)
    ensures Keyed(Contents(es)) ==> forall i, j :: 0 <= i < j < |regs| ==> Less(regs[i].project, regs[j].project)
  {
    DecodedRegsMeaning(es);
    forall r ensures multiset(regs)[r] == |Holders(Contents(es), r)| {
      CountHolders(es, r);
    }
    forall r ensures r in regs <==> r in DecodedRegs(es) {
      assert r in regs <==> r in multiset(regs);
      assert r in DecodedRegs(es) <==> r in multiset(DecodedRegs(es));
    }
    if Keyed(Contents(es)) {
      DecodedRegsKeyed(es);
      SortedIsStrict(regs, DecodedRegs(es));
    }
  }

  /** One step of sorting by project. */
  function InsertByProject(regs: seq<Registration>, reg: Registration): (r: seq<Registration>)
    requires SortedByProject(regs)
    ensures SortedByProject(r) && multiset(r) == multiset(regs) + multiset{reg}
  {
    if regs == [] || !Less(reg.project, regs[|regs| - 1].project) then
      if regs == [] then [reg]
      else
        LastIsGreatest(regs, reg);
        regs + [reg]
    else
      var init, last := regs[..|regs| - 1], regs[|regs| - 1];
      assert regs == init + [last];
      var t := InsertByProject(init, reg);
      AllBelow(t, init, reg, last);
      t + [last]
  }

  lemma LastIsGreatest(regs: seq<Registration>, reg: Registration)
    requires SortedByProject(regs) && regs != [] && !Less(reg.project, regs[|regs| - 1].project)
    ensures SortedByProject(regs + [reg])
  {
    forall i | 0 <= i < |regs| ensures !Less(reg.project, regs[i].project) {
      var last := regs[|regs| - 1].project;
      LessTotal(last, regs[i].project);
      if Less(reg.project, regs[i].project) {
        LessTotal(reg.project, last);
        if Less(last, reg.project) {
          LessTrans(last, reg.project, regs[i].project);
        }
        LessIrreflexive(last);
      }
    }
  }

  lemma AllBelow(t: seq<Registration>, init: seq<Registration>, reg: Registration, last: Registration)
    requires SortedByProject(init + [last]) && SortedByProject(t)
    requires multiset(t) == multiset(init) + multiset{reg} && Less(reg.project, last.project)
    ensures SortedByProject(t + [last])
  {
    LessAsymmetric(reg.project, last.project);
    forall i | 0 <= i < |t| ensures !Less(last.project, t[i].project) {
      assert t[i] in multiset(t);
      if t[i] != reg {
        assert t[i] in multiset(init);
        var j :| 0 <= j < |init| && init[j] == t[i];
        assert !Less((init + [last])[|init|].project, (init + [last])[j].project);
      }
    }
  }
}
