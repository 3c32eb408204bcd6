/**
 Export reconciliation: from a registry file and auto-discovered binaries to the links of the shared bin directory.
 Maps are iterated in an arbitrary order, as Go does. Files are known by their cleaned paths, because an export's name
 may be any string and is joined to the directory. Which file operations fail is an input; relative targets, wrapper
 paths and wrapper text are given functions.
 */
module Exports {
  import opened CleanPaths
  import opened Paths
  import opened Wrappers

  datatype ExportType = Binary | DockerRun | DockerExec | OtherType(name: string)
  datatype ExportDef = ExportDef(
    bin: string, kind: ExportType, target: string,
    container: string, command: string, image: string, workdir: string)
  datatype ProjectExports = ProjectExports(name: string, exports: seq<ExportDef>)

  function Native(bin: string, target: string): ExportDef { ExportDef(bin, Binary, target, "", "", "", "") }

  /** A file: a symbolic link, or anything else. */
  datatype Node = Link(target: string) | Plain

  type Expected = map<string, map<string, ExportDef>>
  type Files = map<string, Node>

  // ---------- What is expected ----------

  datatype Claim = Claim(project: string, def: ExportDef)

  function ClaimsOf(p: ProjectExports): (cs: seq<Claim>)
    ensures |cs| == |p.exports| && forall i :: 0 <= i < |cs| ==> cs[i] == Claim(p.name, p.exports[i])
  {
    seq(|p.exports|, i requires 0 <= i < |p.exports| => Claim(p.name, p.exports[i]))
  }

  function Claims(registry: seq<ProjectExports>): seq<Claim> {
    if registry == [] then [] else Claims(registry[..|registry| - 1]) + ClaimsOf(registry[|registry| - 1])
  }

  /** The last registry entry for a project's binary. */
  function RegistryDef(cs: seq<Claim>, project: string, bin: string): Option<ExportDef> {
    if cs == [] then None
    else if cs[|cs| - 1].project == project && cs[|cs| - 1].def.bin == bin then Some(cs[|cs| - 1].def)
    else RegistryDef(cs[..|cs| - 1], project, bin)
  }

  /** The first discovered binary of that name. */
  function AutoDef(defs: seq<ExportDef>, bin: string): Option<ExportDef> {
    if defs == [] then None
    else if defs[0].bin == bin then Some(defs[0])
    else AutoDef(defs[1..], bin)
  }

  function Lookup(e: Expected, project: string, bin: string): Option<ExportDef> {
    if project in e && bin in e[project] then Some(e[project][bin]) else None
  }

  function OrElse(a: Option<ExportDef>, b: Option<ExportDef>): Option<ExportDef> { if a.Some? then a else b }

  /** The registry beats auto-discovery, which counts only for known projects. */
  function ExpectedDef(registry: seq<ProjectExports>, known: seq<string>, scan: string -> seq<ExportDef>,
                       project: string, bin: string): Option<ExportDef>
  {
    OrElse(RegistryDef(Claims(registry), project, bin), if project in known then AutoDef(scan(project), bin) else None)
  }

  method AddRegistryProject(e: Expected, p: ProjectExports) returns (r: Expected)
    ensures p.name in r
    ensures forall q, b :: Lookup(r, q, b) == OrElse(RegistryDef(ClaimsOf(p), q, b), Lookup(e, q, b))
  {
    r := if p.name in e then e else e[p.name := map[]];
    for i := 0 to |p.exports|
      invariant p.name in r
      invariant forall q, b :: Lookup(r, q, b) == OrElse(RegistryDef(ClaimsOf(p)[..i], q, b), Lookup(e, q, b))
    {
      assert ClaimsOf(p)[..i + 1][..i] == ClaimsOf(p)[..i];
      r := r[p.name := r[p.name][p.exports[i].bin := p.exports[i]]];
    }
    assert ClaimsOf(p)[..|p.exports|] == ClaimsOf(p);
  }

  lemma {:induction false} RegistryDefAppend(a: seq<Claim>, b: seq<Claim>, project: string, bin: string)
    ensures RegistryDef(a + b, project, bin) == OrElse(RegistryDef(b, project, bin), RegistryDef(a, project, bin))
  {
    if b == [] {
      assert a + b == a;
    } else {
      assert (a + b)[..|a + b| - 1] == a + b[..|b| - 1];
      RegistryDefAppend(a, b[..|b| - 1], project, bin);
    }
  }

  method AddDiscovered(e: Expected, project: string, defs: seq<ExportDef>) returns (r: Expected)
    ensures project in r
    ensures forall q, b :: Lookup(r, q, b) == OrElse(Lookup(e, q, b), if q == project then AutoDef(defs, b) else None)
  {
    r := if project in e then e else e[project := map[]];
    for i := 0 to |defs|
      invariant project in r
      invariant forall q, b ::
          Lookup(r, q, b) == OrElse(Lookup(e, q, b), if q == project then AutoDef(defs[..i], b) else None)
    {
      forall b
        ensures AutoDef(defs[..i + 1], b) ==
                OrElse(AutoDef(defs[..i], b), if defs[i].bin == b then Some(defs[i]) else None)
      {
        AutoDefSnoc(defs[..i], defs[i], b);
        assert defs[..i + 1] == defs[..i] + [defs[i]];
      }
      if defs[i].bin !in r[project] {
        r := r[project := r[project][defs[i].bin := defs[i]]];
      }
    }
    assert defs[..|defs|] == defs;
  }

  lemma {:induction false} AutoDefSnoc(defs: seq<ExportDef>, d: ExportDef, bin: string)
    ensures AutoDef(defs + [d], bin) == OrElse(AutoDef(defs, bin), if d.bin == bin then Some(d) else None)
  {
    if defs == [] {
      assert defs + [d] == [d];
      assert [d][1..] == [];
    } else {
      assert (defs + [d])[1..] == defs[1..] + [d];
      AutoDefSnoc(defs[1..], d, bin);
    }
  }

  method BuildExpected(registry: seq<ProjectExports>, known: seq<string>, scan: string -> seq<ExportDef>)
    returns (e: Expected)
    ensures forall p, b :: Lookup(e, p, b) == ExpectedDef(registry, known, scan, p, b)
  {
    e := map[];
    for i := 0 to |registry|
      invariant forall p, b :: Lookup(e, p, b) == RegistryDef(Claims(registry[..i]), p, b)
    {
      assert registry[..i + 1][..i] == registry[..i];
      forall p, b ensures RegistryDef(Claims(registry[..i + 1]), p, b) ==
        OrElse(RegistryDef(ClaimsOf(registry[i]), p, b), RegistryDef(Claims(registry[..i]), p, b))
      {
        RegistryDefAppend(Claims(registry[..i]), ClaimsOf(registry[i]), p, b);
      }
      e := AddRegistryProject(e, registry[i]);
    }
    assert registry[..|registry|] == registry;
    for i := 0 to |known|
      invariant forall p, b :: Lookup(e, p, b) == ExpectedDef(registry, known[..i], scan, p, b)
    {
      assert forall p :: p in known[..i + 1] <==> p in known[..i] || p == known[i];
      e := AddDiscovered(e, known[i], scan(known[i]));
    }
    assert known[..|known|] == known;
  }

  predicate Defines(p: ProjectExports, project: string, bin: string) {
    p.name == project && exists d :: d in p.exports && d.bin == bin
  }

  lemma {:induction false} NoClaimNoDef(cs: seq<Claim>, project: string, bin: string)
    requires forall i :: 0 <= i < |cs| ==> cs[i].project != project || cs[i].def.bin != bin
    ensures RegistryDef(cs, project, bin) == None
  {
    if cs != [] {
      NoClaimNoDef(cs[..|cs| - 1], project, bin);
    }
  }

  lemma {:induction false} LastClaimCounts(cs: seq<Claim>, i: nat)
    requires i < |cs|
    requires forall j :: i < j < |cs| ==> cs[j].project != cs[i].project || cs[j].def.bin != cs[i].def.bin
    ensures RegistryDef(cs, cs[i].project, cs[i].def.bin) == Some(cs[i].def)
  {
    if i < |cs| - 1 {
      LastClaimCounts(cs[..|cs| - 1], i);
    }
  }

  lemma {:induction false} UndefinedInRegistry(registry: seq<ProjectExports>, project: string, bin: string)
    requires forall j :: 0 <= j < |registry| ==> !Defines(registry[j], project, bin)
    ensures RegistryDef(Claims(registry), project, bin) == None
  {
    if registry != [] {
      var n := |registry| - 1;
      UndefinedInRegistry(registry[..n], project, bin);
      RegistryDefAppend(Claims(registry[..n]), ClaimsOf(registry[n]), project, bin);
      assert !Defines(registry[n], project, bin);
      NoClaimNoDef(ClaimsOf(registry[n]), project, bin);
    }
  }

  /** The last definition in the registry file wins, over earlier ones of the project and over any discovered binary. */
  lemma {:induction false} LastDefinitionWins(registry: seq<ProjectExports>, known: seq<string>,
                                              scan: string -> seq<ExportDef>, j: nat, k: nat)
    requires j < |registry| && k < |registry[j].exports|
    requires forall l :: k < l < |registry[j].exports| ==> registry[j].exports[l].bin != registry[j].exports[k].bin
    requires forall i :: j < i < |registry| ==> !Defines(registry[i], registry[j].name, registry[j].exports[k].bin)
    ensures ExpectedDef(registry, known, scan, registry[j].name, registry[j].exports[k].bin)
            == Some(registry[j].exports[k])
  {
    var n := |registry| - 1;
    var last, project, bin := registry[n], registry[j].name, registry[j].exports[k].bin;
    RegistryDefAppend(Claims(registry[..n]), ClaimsOf(last), project, bin);
    if j == n {
      LastClaimCounts(ClaimsOf(last), k);
    } else {
      assert !Defines(last, project, bin);
      NoClaimNoDef(ClaimsOf(last), project, bin);
      assert forall i :: 0 <= i < n ==> registry[..n][i] == registry[i];
      LastDefinitionWins(registry[..n], [], scan, j, k);
    }
  }

  lemma {:induction false} FirstDiscoveredCounts(defs: seq<ExportDef>, k: nat)
    requires k < |defs| && forall l :: 0 <= l < k ==> defs[l].bin != defs[k].bin
    ensures AutoDef(defs, defs[k].bin) == Some(defs[k])
  {
    if k > 0 {
      FirstDiscoveredCounts(defs[1..], k - 1);
    }
  }

  lemma {:induction false} NothingDiscovered(defs: seq<ExportDef>, bin: string)
    requires forall d :: d in defs ==> d.bin != bin
    ensures AutoDef(defs, bin) == None
  {
    if defs != [] {
      NothingDiscovered(defs[1..], bin);
    }
  }

  /** Without a definition in the registry: the first binary of that name discovered in a known project, or nothing. */
  lemma DiscoveryFillsIn(registry: seq<ProjectExports>, known: seq<string>, scan: string -> seq<ExportDef>,
                         project: string, bin: string)
    requires forall j :: 0 <= j < |registry| ==> !Defines(registry[j], project, bin)
    ensures forall k :: 0 <= k < |scan(project)| && project in known && scan(project)[k].bin == bin ==>
              (forall l :: 0 <= l < k ==> scan(project)[l].bin != bin) ==>
                ExpectedDef(registry, known, scan, project, bin) == Some(scan(project)[k])
    ensures project !in known || (forall d :: d in scan(project) ==> d.bin != bin) ==>
              ExpectedDef(registry, known, scan, project, bin) == None
  {
    UndefinedInRegistry(registry, project, bin);
    forall k | 0 <= k < |scan(project)| && scan(project)[k].bin == bin
               && (forall l :: 0 <= l < k ==> scan(project)[l].bin != bin)
      ensures AutoDef(scan(project), bin) == Some(scan(project)[k])
    {
      FirstDiscoveredCounts(scan(project), k);
    }
    if forall d :: d in scan(project) ==> d.bin != bin {
      NothingDiscovered(scan(project), bin);
    }
  }

  // ---------- Placing links ----------

  /**
   What the engine is configured with: the bin directory, link targets relative to it, wrapper locations, wrapper text.
   */
  datatype Setup = Setup(
    binDir: string, rel: string -> string, wrapperPath: (string, string) -> string, render: ExportDef -> string)

  /** What goes wrong while one export is placed. A failed script write may leave some text behind. */
  datatype Fault = Fine | WriteFails(left: Option<string>) | RemoveFails | LinkFails

  /** What goes wrong during one Sync: per export, per path to archive, with listing the bin directory, and the dump. */
  datatype Faults = Faults(placing: (string, string) -> Fault, stuck: set<string>, listable: bool, dump: Fault)

  /** The dump of the expectations; a failed write may tear it. */
  datatype StateFile = Absent | Dumped(e: Expected) | Torn

  predicate IsWrapped(def: ExportDef) { def.kind == DockerRun || def.kind == DockerExec }

  /** Where a binary's link should point; None when no wrapper can be generated for its type. */
  function Desired(s: Setup, project: string, bin: string, def: ExportDef): Option<string> {
    if def.kind == Binary then Some(s.rel(def.target))
    else if IsWrapped(def) then Some(s.rel(s.wrapperPath(project, bin)))
    else None
  }

  type Pair = (string, string)

  predicate IsPair(e: Expected, x: Pair) { x.0 in e && x.1 in e[x.0] }

  /** Where a pair's link is made. */
  function At(s: Setup, x: Pair): string { JoinPath(s.binDir, x.1) }

  /** What the link of a pair should point to. */
  function Want(s: Setup, e: Expected, x: Pair): Option<string>
    requires IsPair(e, x)
  {
    Desired(s, x.0, x.1, e[x.0][x.1])
  }

  /** An iteration order over all expected binaries, each once. */
  ghost predicate IsOrder(order: seq<Pair>, e: Expected) {
    && (forall i, j :: 0 <= i < j < |order| ==> order[i] != order[j])
    && (forall x :: x in order <==> IsPair(e, x))
  }

  ghost predicate PairsOf(order: seq<Pair>, e: Expected) {
    forall i :: 0 <= i < |order| ==> IsPair(e, order[i])
  }

  /**
   The directory after one link was to be made: untouched when already right, or when the old entry cannot be removed.
   */
  function Linked(dir: Files, link: string, target: string, fault: Fault): Files {
    if link in dir && (dir[link] == Link(target) || fault == RemoveFails) then dir
    else if fault == LinkFails then dir - {link}
    else dir[link := Link(target)]
  }

  ghost function PlaceOne(s: Setup, f: Faults, e: Expected, dir: Files, x: Pair): Files
    requires IsPair(e, x)
  {
    var fault := f.placing(x.0, x.1);
    match Want(s, e, x)
    case Some(target) =>
      if IsWrapped(e[x.0][x.1]) && fault.WriteFails? then dir else Linked(dir, At(s, x), target, fault)
    case None => dir
  }

  ghost function Placed(s: Setup, f: Faults, e: Expected, dir: Files, order: seq<Pair>): Files
    requires PairsOf(order, e)
  {
    if order == [] then dir
    else PlaceOne(s, f, e, Placed(s, f, e, dir, order[..|order| - 1]), order[|order| - 1])
  }

  function AfterDump(state: StateFile, e: Expected, fault: Fault): StateFile {
    if !fault.WriteFails? then Dumped(e) else if fault.left.Some? then Torn else state
  }

  /** The scripts after one write: a failed one leaves the old text or whatever it got out. */
  function WriteOne(wrappers: map<string, string>, path: string, text: string, fault: Fault): map<string, string> {
    if !fault.WriteFails? then wrappers[path := text]
    else if fault.left.Some? then wrappers[path := fault.left.value]
    else wrappers
  }

  ghost function Wrote(s: Setup, f: Faults, e: Expected, wrappers: map<string, string>,
                       order: seq<Pair>): map<string, string>
    requires PairsOf(order, e)
  {
    if order == [] then wrappers
    else
      var x := order[|order| - 1];
      assert IsPair(e, x);
      var before := Wrote(s, f, e, wrappers, order[..|order| - 1]);
      if IsWrapped(e[x.0][x.1]) then
        WriteOne(before, s.wrapperPath(x.0, x.1), s.render(e[x.0][x.1]), f.placing(x.0, x.1))
      else before
  }

  /** `strings.Contains`. */
  predicate Contains(s: string, sub: string) {
    sub <= s || (s != "" && Contains(s[1..], sub))
  }

  ghost predicate OccursIn(sub: string, s: string) { exists a, b :: s == a + sub + b }

  lemma {:induction false} ContainsWhen(s: string, sub: string)
    ensures Contains(s, sub) <==> exists a, b :: s == a + sub + b
    ensures OccursIn(sub, s) <==> exists a, b :: s == a + sub + b
  {
    if sub <= s {
      assert s == "" + sub + s[|sub|..];
    } else if s != "" {
      ContainsWhen(s[1..], sub);
      if OccursIn(sub, s[1..]) {
        var a, b :| s[1..] == a + sub + b;
        assert s == ([s[0]] + a) + sub + b;
      }
      if OccursIn(sub, s) {
        var a, b :| s == a + sub + b;
        assert a == "" ==> a + sub == sub;
        assert s[1..] == a[1..] + sub + b;
      }
    }
  }

  /** A link this daemon manages: its target mentions the exports directory or a work tree. */
  ghost predicate Managed(n: Node) {
    n.Link? && (OccursIn("delightd/exports", n.target) || OccursIn("/work/", n.target))
  }

  ghost predicate IsExpectedBin(e: Expected, bin: string) { exists p :: p in e && bin in e[p] }

  /** An entry of the bin directory that no export has as its name. */
  predicate Stray(s: Setup, expectedBins: set<string>, path: string) {
    IsEntry(s.binDir, path) && Base(path) !in expectedBins
  }

  /** A stray managed link that is moved: the directory can be listed and the rename succeeds. */
  ghost predicate Goes(s: Setup, f: Faults, expectedBins: set<string>, dir: Files, path: string) {
    && f.listable && path !in f.stuck
    && path in dir && Stray(s, expectedBins, path) && Managed(dir[path])
  }

  ghost function Swept(s: Setup, f: Faults, expectedBins: set<string>, dir: Files): Files {
    map p | p in dir && !Goes(s, f, expectedBins, dir, p) :: dir[p]
  }

  /** Archive entry `x` is the move of a link of this directory, under the time its own move read. */
  ghost predicate IsMove(s: Setup, f: Faults, expectedBins: set<string>, dir: Files, stamp: string -> string, x: Pair) {
    IsEntryName(x.1) && Goes(s, f, expectedBins, dir, JoinPath(s.binDir, x.1)) && x.0 == stamp(x.1)
  }

  /** The archive after every link that goes, other than those at `rest`, was moved into it. */
  ghost predicate Archived(s: Setup, f: Faults, expectedBins: set<string>, dir: Files, stamp: string -> string,
                           rest: set<string>, before: map<Pair, Node>, after: map<Pair, Node>)
  {
    forall x :: ArchivedAt(s, f, expectedBins, dir, stamp, rest, before, after, x)
  }

  ghost predicate ArchivedAt(s: Setup, f: Faults, expectedBins: set<string>, dir: Files, stamp: string -> string,
                             rest: set<string>, before: map<Pair, Node>, after: map<Pair, Node>, x: Pair)
  {
    var p := JoinPath(s.binDir, x.1);
    if p !in rest && IsMove(s, f, expectedBins, dir, stamp, x) then x in after && after[x] == dir[p]
    else (x in after <==> x in before) && (x in before ==> after[x] == before[x])
  }

  /** The archiving loop with the paths of `rest` still to visit. */
  ghost function SweptExcept(s: Setup, f: Faults, expectedBins: set<string>, dir: Files, rest: set<string>): Files {
    map p | p in dir && (p in rest || !Goes(s, f, expectedBins, dir, p)) :: dir[p]
  }

  /** Told outright: a link of the bin directory to a managed place, under a name that is no export's, and movable. */
  lemma GoesExactly(s: Setup, f: Faults, expectedBins: set<string>, dir: Files, path: string)
    ensures Goes(s, f, expectedBins, dir, path) <==>
            && f.listable && path !in f.stuck && path in dir && dir[path].Link?
            && (exists a, b :: dir[path].target == a + "delightd/exports" + b || dir[path].target == a + "/work/" + b)
            && exists n :: n != "" && '/' !in n && n != "." && n != ".." && n !in expectedBins
                           && path == JoinPath(s.binDir, n)
  {
    if n :| n != "" && '/' !in n && n != "." && n != ".." && n !in expectedBins && path == JoinPath(s.binDir, n) {
      EntryBase(s.binDir, n);
    }
  }

  lemma NothingSwept(s: Setup, f: Faults, bins: set<string>, dir: Files, stamp: string -> string,
                     archive: map<Pair, Node>)
    ensures SweptExcept(s, f, bins, dir, dir.Keys) == dir
    ensures Archived(s, f, bins, dir, stamp, dir.Keys, archive, archive)
    ensures !f.listable ==> Swept(s, f, bins, dir) == dir && Archived(s, f, bins, dir, stamp, {}, archive, archive)
  {
  }

  lemma SweepOne(s: Setup, f: Faults, bins: set<string>, dir: Files, rest: set<string>, p: string)
    requires p in rest && rest <= dir.Keys
    ensures p in SweptExcept(s, f, bins, dir, rest) && SweptExcept(s, f, bins, dir, rest)[p] == dir[p]
    ensures Goes(s, f, bins, dir, p) ==>
              SweptExcept(s, f, bins, dir, rest - {p}) == SweptExcept(s, f, bins, dir, rest) - {p}
    ensures !Goes(s, f, bins, dir, p) ==>
              SweptExcept(s, f, bins, dir, rest - {p}) == SweptExcept(s, f, bins, dir, rest)
  {
  }

  lemma MoveOne(s: Setup, f: Faults, bins: set<string>, dir: Files, stamp: string -> string, rest: set<string>,
                p: string, before: map<Pair, Node>, after: map<Pair, Node>)
    requires p in rest && rest <= dir.Keys && Archived(s, f, bins, dir, stamp, rest, before, after)
    ensures Goes(s, f, bins, dir, p) ==>
              Archived(s, f, bins, dir, stamp, rest - {p}, before, after[(stamp(Base(p)), Base(p)) := dir[p]])
    ensures !Goes(s, f, bins, dir, p) ==> Archived(s, f, bins, dir, stamp, rest - {p}, before, after)
  {
    var key := (stamp(Base(p)), Base(p));
    var next := if Goes(s, f, bins, dir, p) then after[key := dir[p]] else after;
    forall x ensures ArchivedAt(s, f, bins, dir, stamp, rest - {p}, before, next, x) {
      assert ArchivedAt(s, f, bins, dir, stamp, rest, before, after, x);
      if IsEntryName(x.1) {
        EntryBase(s.binDir, x.1);
      }
    }
  }

  lemma AllSwept(s: Setup, f: Faults, bins: set<string>, dir: Files)
    ensures SweptExcept(s, f, bins, dir, {}) == Swept(s, f, bins, dir)
  {
  }

  class Engine {
    const setup: Setup
    var dir: Files
    var wrappers: map<string, string>
    var archive: map<Pair, Node>
    var state: StateFile

    constructor (setup: Setup, dir: Files)
      ensures this.setup == setup && this.dir == dir && wrappers == map[] && archive == map[] && state == Absent
    {
      state := Absent;
      this.setup := setup;
      this.dir := dir;
      wrappers := map[];
      archive := map[];
    }

    /** The link is created or replaced only when it does not already point at its target. */
    method EnsureSymlink(target: string, link: string, fault: Fault, dryRun: bool) returns (attempted: bool)
      modifies this`dir
      ensures attempted <==> !dryRun && !(link in old(dir) && old(dir)[link] == Link(target))
      ensures !attempted ==> dir == old(dir)
      ensures attempted && !fault.RemoveFails? && !fault.LinkFails? ==> dir == old(dir)[link := Link(target)]
      ensures attempted && fault.RemoveFails? ==>
                dir == if link in old(dir) then old(dir) else old(dir)[link := Link(target)]
      ensures attempted && fault.LinkFails? ==> dir == old(dir) - {link}
    {
      if link in dir && dir[link].Link? && dir[link].target == target {
        return false;
      }
      if dryRun {
        return false;
      }
      if link in dir && fault != RemoveFails {
        dir := dir - {link};
      }
      if link !in dir && fault != LinkFails {
        dir := dir[link := Link(target)];
      }
      return true;
    }

    method PlaceExport(project: string, bin: string, def: ExportDef, fault: Fault, dryRun: bool)
      modifies this`dir, this`wrappers
      ensures dryRun ==> dir == old(dir) && wrappers == old(wrappers)
      ensures !dryRun ==> dir == (match Desired(setup, project, bin, def)
                                  case Some(target) => if IsWrapped(def) && fault.WriteFails? then old(dir)
                                                       else Linked(old(dir), JoinPath(setup.binDir, bin), target, fault)
                                  case None => old(dir))
      ensures !dryRun && !IsWrapped(def) ==> wrappers == old(wrappers)
      ensures !dryRun && IsWrapped(def) ==>
                wrappers == WriteOne(old(wrappers), setup.wrapperPath(project, bin), setup.render(def), fault)
      // Told outright, type by type, when nothing fails.
      ensures def.kind.OtherType? ==> dir == old(dir) && wrappers == old(wrappers)
      ensures def.kind == Binary && !dryRun && fault == Fine ==>
                dir == old(dir)[JoinPath(setup.binDir, bin) := Link(setup.rel(def.target))] && wrappers == old(wrappers)
      ensures def.kind in {DockerRun, DockerExec} && !dryRun && fault == Fine ==>
                var path := setup.wrapperPath(project, bin);
                && wrappers == old(wrappers)[path := setup.render(def)]
                && dir == old(dir)[JoinPath(setup.binDir, bin) := Link(setup.rel(path))]
      ensures def.kind in {DockerRun, DockerExec} && !dryRun && fault.WriteFails? ==>
                && dir == old(dir)
                && wrappers ==
                   if fault.left.Some? then old(wrappers)[setup.wrapperPath(project, bin) := fault.left.value]
                   else old(wrappers)
    {
      var link := JoinPath(setup.binDir, bin);
      if def.kind == Binary {
        var _ := EnsureSymlink(setup.rel(def.target), link, fault, dryRun);
        return;
      }
      if !IsWrapped(def) {
        return;
      }
      var path := setup.wrapperPath(project, bin);
      if !dryRun {
        wrappers := WriteOne(wrappers, path, setup.render(def), fault);
        if fault.WriteFails? {
          return;
        }
      }
      var _ := EnsureSymlink(setup.rel(path), link, fault, dryRun);
    }

    /** The paths visited are those `ReadDir` reports, in any order. */
    method ArchiveOrphans(expectedBins: set<string>, f: Faults, stamp: string -> string, dryRun: bool)
      modifies this`dir, this`archive
      ensures dir == if dryRun then old(dir) else Swept(setup, f, expectedBins, old(dir))
      ensures dryRun ==> archive == old(archive)
      ensures !dryRun ==> Archived(setup, f, expectedBins, old(dir), stamp, {}, old(archive), archive)
    {
      NothingSwept(setup, f, expectedBins, dir, stamp, archive);
      if dryRun || !f.listable {
        return; // a dry run only logs
      }
      var rest := dir.Keys;
      ghost var before, kept := dir, archive;
      while rest != {}
        invariant rest <= before.Keys
        invariant dir == SweptExcept(setup, f, expectedBins, before, rest)
        invariant Archived(setup, f, expectedBins, before, stamp, rest, kept, archive)
        decreases |rest|
      {
        var path :| path in rest;
        SweepOne(setup, f, expectedBins, before, rest, path);
        MoveOne(setup, f, expectedBins, before, stamp, rest, path, kept, archive);
        rest := rest - {path};
        var name := Base(path);
        var managed := false;
        if dir[path].Link? {
          ContainsWhen(dir[path].target, "delightd/exports");
          ContainsWhen(dir[path].target, "/work/");
          managed := Contains(dir[path].target, "delightd/exports") || Contains(dir[path].target, "/work/");
        }
        if IsEntry(setup.binDir, path) && name !in expectedBins && managed && path !in f.stuck {
          archive := archive[(stamp(name), name) := dir[path]];
          dir := dir - {path};
        }
      }
      AllSwept(setup, f, expectedBins, before);
    }

    method DumpState(e: Expected, fault: Fault, dryRun: bool)
      modifies this`state
      ensures state == if dryRun then old(state) else AfterDump(old(state), e, fault)
      ensures !dryRun && !fault.WriteFails? ==> state == Dumped(e)
      ensures !dryRun && fault.WriteFails? ==> state == if fault.left.Some? then Torn else old(state)
    {
      if dryRun {
        return;
      }
      if !fault.WriteFails? {
        state := Dumped(e);
      } else if fault.left.Some? {
        state := Torn;
      }
    }

    /** The inner placement loop: one project's binaries, in whatever order they yield. */
    method PlaceProject(e: Expected, f: Faults, p: string, dryRun: bool, ghost dir0: Files,
                        ghost wrappers0: map<string, string>, ghost projects: set<string>, ghost before: seq<Pair>)
        returns (ghost order: seq<Pair>)
      requires p in e && p !in projects && OrderUpTo(before, e, projects + {p}, "", {})
      requires dir == if dryRun then dir0 else Placed(setup, f, e, dir0, before)
      requires wrappers == if dryRun then wrappers0 else Wrote(setup, f, e, wrappers0, before)
      modifies this`dir, this`wrappers
      ensures OrderUpTo(order, e, projects, "", {})
      ensures dir == if dryRun then dir0 else Placed(setup, f, e, dir0, order)
      ensures wrappers == if dryRun then wrappers0 else Wrote(setup, f, e, wrappers0, order)
    {
      order := before;
      var bins := e[p].Keys;
      StartProject(order, e, projects, p);
      while bins != {}
        invariant bins <= e[p].Keys
        invariant OrderUpTo(order, e, projects, p, bins)
        invariant dir == if dryRun then dir0 else Placed(setup, f, e, dir0, order)
        invariant wrappers == if dryRun then wrappers0 else Wrote(setup, f, e, wrappers0, order)
        decreases |bins|
      {
        var bin :| bin in bins;
        bins := bins - {bin};
        PlaceExport(p, bin, e[p][bin], f.placing(p, bin), dryRun);
        NextPair(order, e, projects, p, bins, bin);
        OneMorePair(setup, f, e, dir0, wrappers0, order, (p, bin));
        order := order + [(p, bin)];
      }
      EndProject(order, e, projects, p);
    }

    /** The placement loops over the nested maps. */
    method PlaceAll(e: Expected, f: Faults, dryRun: bool) returns (expectedBins: set<string>, ghost order: seq<Pair>)
      modifies this`dir, this`wrappers
      ensures IsOrder(order, e) && forall b :: b in expectedBins <==> IsExpectedBin(e, b)
      ensures dir == if dryRun then old(dir) else Placed(setup, f, e, old(dir), order)
      ensures wrappers == if dryRun then old(wrappers) else Wrote(setup, f, e, old(wrappers), order)
    {
      expectedBins := {};
      order := [];
      var projects := e.Keys;
      while projects != {}
        invariant projects <= e.Keys
        invariant OrderUpTo(order, e, projects, "", {})
        invariant forall b :: b in expectedBins <==> ExpectedOutside(e, projects, b)
        invariant dir == if dryRun then old(dir) else Placed(setup, f, e, old(dir), order)
        invariant wrappers == if dryRun then old(wrappers) else Wrote(setup, f, e, old(wrappers), order)
        decreases |projects|
      {
        var p :| p in projects;
        assert projects == (projects - {p}) + {p};
        projects := projects - {p};
        expectedBins := expectedBins + e[p].Keys;
        order := PlaceProject(e, f, p, dryRun, old(dir), old(wrappers), projects, order);
      }
    }

    method Sync(registry: seq<ProjectExports>, known: seq<string>, scan: string -> seq<ExportDef>, f: Faults,
                stamp: string -> string, dryRun: bool)
        returns (e: Expected, ghost order: seq<Pair>, ghost expectedBins: set<string>)
      modifies this
      ensures forall p, b :: Lookup(e, p, b) == ExpectedDef(registry, known, scan, p, b)
      ensures IsOrder(order, e) && forall b :: b in expectedBins <==> IsExpectedBin(e, b)
      ensures dryRun ==> dir == old(dir) && wrappers == old(wrappers) && archive == old(archive) && state == old(state)
      ensures !dryRun ==> dir == AfterSync(setup, f, e, expectedBins, old(dir), order)
      ensures !dryRun ==>
                Archived(setup, f, expectedBins, Placed(setup, f, e, old(dir), order), stamp, {}, old(archive), archive)
      ensures !dryRun ==> wrappers == Wrote(setup, f, e, old(wrappers), order)
      ensures !dryRun ==> state == AfterDump(old(state), e, f.dump)
    {
      e := BuildExpected(registry, known, scan);
      var bins;
      bins, order := PlaceAll(e, f, dryRun);
      expectedBins := bins;
      ArchiveOrphans(bins, f, stamp, dryRun);
      DumpState(e, f.dump, dryRun);
    }
  }

  lemma OneMorePair(s: Setup, f: Faults, e: Expected, dir: Files, wrappers: map<string, string>, order: seq<Pair>,
                    x: Pair)
    requires PairsOf(order, e) && IsPair(e, x)
    ensures PairsOf(order + [x], e)
    ensures Placed(s, f, e, dir, order + [x]) == PlaceOne(s, f, e, Placed(s, f, e, dir, order), x)
    ensures Wrote(s, f, e, wrappers, order + [x]) ==
            if IsWrapped(e[x.0][x.1]) then
              WriteOne(Wrote(s, f, e, wrappers, order), s.wrapperPath(x.0, x.1), s.render(e[x.0][x.1]),
                       f.placing(x.0, x.1))
            else Wrote(s, f, e, wrappers, order)
  {
    assert (order + [x])[..|order|] == order;
  }

  /** The pairs listed so far: all of the finished projects', and those of `p` no longer among `bins`. */
  ghost predicate OrderUpTo(order: seq<Pair>, e: Expected, projects: set<string>, p: string, bins: set<string>) {
    && (forall i, j :: 0 <= i < j < |order| ==> order[i] != order[j])
    && (forall x :: x in order <==> IsPair(e, x) && x.0 !in projects && !(x.0 == p && x.1 in bins))
    && PairsOf(order, e)
  }

  ghost predicate ExpectedOutside(e: Expected, projects: set<string>, b: string) {
    exists p :: p in e && p !in projects && b in e[p]
  }

  lemma StartProject(order: seq<Pair>, e: Expected, projects: set<string>, p: string)
    requires p !in projects && p in e && OrderUpTo(order, e, projects + {p}, "", {})
    ensures OrderUpTo(order, e, projects, p, e[p].Keys)
  {
  }

  lemma EndProject(order: seq<Pair>, e: Expected, projects: set<string>, p: string)
    requires OrderUpTo(order, e, projects, p, {})
    ensures OrderUpTo(order, e, projects, "", {})
  {
  }

  lemma NextPair(order: seq<Pair>, e: Expected, projects: set<string>, p: string, bins: set<string>, bin: string)
    requires p in e && p !in projects && bin in e[p] && bin !in bins && OrderUpTo(order, e, projects, p, bins + {bin})
    ensures OrderUpTo(order + [(p, bin)], e, projects, p, bins)
  {
    assert (p, bin) !in order;
  }

  // ---------- One path at a time ----------

  ghost predicate SameEntry(before: Files, after: Files, p: string) {
    (p in after <==> p in before) && (p in before ==> after[p] == before[p])
  }

  ghost predicate PointsTo(dir: Files, p: string, target: string) { p in dir && dir[p] == Link(target) }

  /** The pair is to be linked, at this path. */
  ghost predicate Leads(s: Setup, e: Expected, x: Pair, p: string) {
    IsPair(e, x) && Want(s, e, x).Some? && At(s, x) == p
  }

  /** Some expected export is to be linked at this path. */
  ghost predicate LedTo(s: Setup, e: Expected, p: string) { exists x :: Leads(s, e, x, p) }

  ghost predicate LedToAmong(s: Setup, e: Expected, order: seq<Pair>, p: string) {
    exists i :: 0 <= i < |order| && Leads(s, e, order[i], p)
  }

  /** A path that nothing is to be linked at is left alone, whatever fails. */
  lemma {:induction false} UnledIsKept(s: Setup, f: Faults, e: Expected, dir: Files, order: seq<Pair>, p: string)
    requires PairsOf(order, e) && !LedToAmong(s, e, order, p)
    ensures SameEntry(dir, Placed(s, f, e, dir, order), p)
  {
    if order != [] {
      var n := |order| - 1;
      var init := order[..n];
      assert !Leads(s, e, order[n], p);
      assert forall i :: 0 <= i < n ==> init[i] == order[i];
      UnledIsKept(s, f, e, dir, init, p);
      PlaceAway(s, f, e, Placed(s, f, e, dir, init), order[n], p);
    }
  }

  lemma PlaceAway(s: Setup, f: Faults, e: Expected, dir: Files, x: Pair, p: string)
    requires IsPair(e, x) && !Leads(s, e, x, p)
    ensures SameEntry(dir, PlaceOne(s, f, e, dir, x), p)
  {
  }

  /** Every export is placed without a failure. */
  ghost predicate PlacesFine(f: Faults, e: Expected) {
    forall x :: IsPair(e, x) ==> f.placing(x.0, x.1) == Fine
  }

  lemma PlaceHere(s: Setup, f: Faults, e: Expected, dir: Files, x: Pair)
    requires PlacesFine(f, e) && Leads(s, e, x, At(s, x))
    ensures PointsTo(PlaceOne(s, f, e, dir, x), At(s, x), Want(s, e, x).value)
  {
    assert f.placing(x.0, x.1) == Fine;
  }

  /** Exports to be linked at one path are to be linked to one target. */
  ghost predicate Agreeing(s: Setup, e: Expected) {
    forall x, y, p :: Leads(s, e, x, p) && Leads(s, e, y, p) ==> Want(s, e, x) == Want(s, e, y)
  }

  lemma {:induction false} LedIsLinked(s: Setup, f: Faults, e: Expected, dir: Files, order: seq<Pair>,
                                       x: Pair, p: string)
    requires PlacesFine(f, e) && Agreeing(s, e) && PairsOf(order, e)
    requires Leads(s, e, x, p) && LedToAmong(s, e, order, p)
    ensures PointsTo(Placed(s, f, e, dir, order), p, Want(s, e, x).value)
  {
    var n := |order| - 1;
    var init, y := order[..n], order[n];
    assert IsPair(e, y);
    if !Leads(s, e, y, p) {
      assert LedToAmong(s, e, init, p) by {
        assert forall i :: 0 <= i < n ==> order[i] == init[i];
      }
      LedIsLinked(s, f, e, dir, init, x, p);
    }
    PlaceLed(s, f, e, Placed(s, f, e, dir, init), x, y, p);
  }

  lemma PlaceLed(s: Setup, f: Faults, e: Expected, dir: Files, x: Pair, y: Pair, p: string)
    requires PlacesFine(f, e) && Agreeing(s, e) && Leads(s, e, x, p) && IsPair(e, y)
    requires Leads(s, e, y, p) || PointsTo(dir, p, Want(s, e, x).value)
    ensures PointsTo(PlaceOne(s, f, e, dir, y), p, Want(s, e, x).value)
  {
    if Leads(s, e, y, p) {
      PlaceHere(s, f, e, dir, y);
    } else {
      PlaceAway(s, f, e, dir, y, p);
    }
  }

  lemma LedToInOrder(s: Setup, e: Expected, order: seq<Pair>, p: string)
    requires IsOrder(order, e)
    ensures LedToAmong(s, e, order, p) <==> LedTo(s, e, p)
  {
    if x :| Leads(s, e, x, p) {
      assert x in order;
      var i :| 0 <= i < |order| && order[i] == x;
      assert Leads(s, e, order[i], p);
    }
  }

  // ---------- When the iteration order does not matter ----------

  ghost predicate OrderIndependent(s: Setup, f: Faults, e: Expected) {
    forall a, b, dir :: IsOrder(a, e) && IsOrder(b, e) ==> Placed(s, f, e, dir, a) == Placed(s, f, e, dir, b)
  }

  lemma SameEntries(a: Files, b: Files)
    requires forall p :: SameEntry(a, b, p)
    ensures a == b
  {
    forall p ensures p in a <==> p in b {
      assert SameEntry(a, b, p);
    }
    forall p | p in a ensures a[p] == b[p] {
      assert SameEntry(a, b, p);
    }
  }

  lemma AgreeingIsIndependent(s: Setup, f: Faults, e: Expected, dir: Files, a: seq<Pair>, b: seq<Pair>)
    requires PlacesFine(f, e) && Agreeing(s, e) && IsOrder(a, e) && IsOrder(b, e)
    ensures Placed(s, f, e, dir, a) == Placed(s, f, e, dir, b)
  {
    var r, t := Placed(s, f, e, dir, a), Placed(s, f, e, dir, b);
    forall p ensures SameEntry(r, t, p) {
      LedToInOrder(s, e, a, p);
      LedToInOrder(s, e, b, p);
      if x :| Leads(s, e, x, p) {
        LedIsLinked(s, f, e, dir, a, x, p);
        LedIsLinked(s, f, e, dir, b, x, p);
      } else {
        UnledIsKept(s, f, e, dir, a, p);
        UnledIsKept(s, f, e, dir, b, p);
      }
    }
    SameEntries(r, t);
  }

  /** The pairs of a set, each once. */
  lemma {:induction false} Listed(pairs: set<Pair>) returns (order: seq<Pair>)
    ensures forall i, j :: 0 <= i < j < |order| ==> order[i] != order[j]
    ensures forall x :: x in order <==> x in pairs
    decreases |pairs|
  {
    if pairs == {} {
      order := [];
    } else {
      var x :| x in pairs;
      order := Listed(pairs - {x});
      order := order + [x];
    }
  }

  /** Any expected pair can come last. */
  lemma OrderEndingIn(e: Expected, x: Pair) returns (init: seq<Pair>)
    requires IsPair(e, x)
    ensures IsOrder(init + [x], e)
  {
    var pairs := set p, b | p in e && b in e[p] :: (p, b);
    assert forall y :: y in pairs <==> IsPair(e, y);
    init := Listed(pairs - {x});
    var order := init + [x];
    forall y ensures y in order <==> IsPair(e, y) {
      assert y in order <==> y in init || y == x;
    }
  }

  lemma LastIsLinked(s: Setup, f: Faults, e: Expected, dir: Files, init: seq<Pair>, x: Pair, p: string)
    requires PlacesFine(f, e) && IsOrder(init + [x], e) && Leads(s, e, x, p)
    ensures PointsTo(Placed(s, f, e, dir, init + [x]), p, Want(s, e, x).value)
  {
    assert forall i :: 0 <= i < |init| ==> (init + [x])[i] == init[i] && (init + [x])[i] in init + [x];
    OneMorePair(s, f, e, dir, map[], init, x);
    PlaceHere(s, f, e, Placed(s, f, e, dir, init), x);
  }

  /**
   Exactly when the placement does not depend on the order the maps yield: exports to be linked at one path, "x" and
   "./x" among them, have the same target.
   */
  lemma OrderIndependentWhen(s: Setup, f: Faults, e: Expected)
    requires PlacesFine(f, e)
    ensures OrderIndependent(s, f, e) <==> Agreeing(s, e)
  {
    if Agreeing(s, e) {
      forall a, b, dir | IsOrder(a, e) && IsOrder(b, e) ensures Placed(s, f, e, dir, a) == Placed(s, f, e, dir, b) {
        AgreeingIsIndependent(s, f, e, dir, a, b);
      }
    }
    if OrderIndependent(s, f, e) {
      forall x, y, p | Leads(s, e, x, p) && Leads(s, e, y, p) ensures Want(s, e, x) == Want(s, e, y) {
        IndependentAgrees(s, f, e, x, y, p);
      }
    }
  }

  lemma IndependentAgrees(s: Setup, f: Faults, e: Expected, x: Pair, y: Pair, p: string)
    requires PlacesFine(f, e) && OrderIndependent(s, f, e) && Leads(s, e, x, p) && Leads(s, e, y, p)
    ensures Want(s, e, x) == Want(s, e, y)
  {
    var a := OrderEndingIn(e, x);
    var b := OrderEndingIn(e, y);
    LastIsLinked(s, f, e, map[], a, x, p);
    LastIsLinked(s, f, e, map[], b, y, p);
    assert Placed(s, f, e, map[], a + [x]) == Placed(s, f, e, map[], b + [y]);
  }

  // ---------- What a Sync achieves ----------

  ghost predicate AreExpected(bins: set<string>, e: Expected) {
    forall b :: b in bins <==> IsExpectedBin(e, b)
  }

  /** No export is linked where the same Sync archives it: in the bin directory under a name that is no export's. */
  ghost predicate Tidy(s: Setup, e: Expected, bins: set<string>) {
    forall x, p :: Leads(s, e, x, p) ==> !(Stray(s, bins, p) && Managed(Link(Want(s, e, x).value)))
  }

  /** All exports that are to be linked are linked to their targets. */
  ghost predicate AllLinked(s: Setup, e: Expected, after: Files) {
    forall x, p :: Leads(s, e, x, p) ==> PointsTo(after, p, Want(s, e, x).value)
  }

  /** Where nothing is to be linked, a stray managed link is gone and any other file is as it was. */
  ghost predicate Cleared(s: Setup, bins: set<string>, before: Files, after: Files, p: string) {
    if p in before && Stray(s, bins, p) && Managed(before[p]) then p !in after else SameEntry(before, after, p)
  }

  /** What a Sync should leave behind. */
  ghost predicate Converged(s: Setup, e: Expected, bins: set<string>, before: Files, after: Files) {
    AllLinked(s, e, after) && forall p :: !LedTo(s, e, p) ==> Cleared(s, bins, before, after, p)
  }

  /** Nothing fails during the Sync. */
  ghost predicate AllFine(f: Faults, e: Expected) {
    PlacesFine(f, e) && f.listable && forall p :: p !in f.stuck
  }

  ghost function AfterSync(s: Setup, f: Faults, e: Expected, bins: set<string>, dir: Files, order: seq<Pair>): Files
    requires PairsOf(order, e)
  {
    Swept(s, f, bins, Placed(s, f, e, dir, order))
  }

  lemma SweptAt(s: Setup, f: Faults, bins: set<string>, dir: Files, p: string)
    ensures if Goes(s, f, bins, dir, p) then p !in Swept(s, f, bins, dir) else SameEntry(dir, Swept(s, f, bins, dir), p)
  {
  }

  /**
   Whatever fails, a file at a path that no export leads to is left alone, unless it is a stray managed link, which is
   moved or left as it was.
   */
  lemma UnledIsSafe(s: Setup, f: Faults, e: Expected, dir: Files, order: seq<Pair>, bins: set<string>, p: string)
    requires IsOrder(order, e) && !LedTo(s, e, p)
    ensures var after := AfterSync(s, f, e, bins, dir, order);
            if Goes(s, f, bins, dir, p) then p !in after else SameEntry(dir, after, p)
  {
    LedToInOrder(s, e, order, p);
    UnledIsKept(s, f, e, dir, order, p);
    SweptAt(s, f, bins, Placed(s, f, e, dir, order), p);
  }

  /** Links that a Sync without failures leaves in place were made at agreed paths, and none was archived. */
  lemma LinkedIsOrderly(s: Setup, f: Faults, e: Expected, dir: Files, order: seq<Pair>, bins: set<string>)
    requires AllFine(f, e) && IsOrder(order, e) && AllLinked(s, e, AfterSync(s, f, e, bins, dir, order))
    ensures Agreeing(s, e) && Tidy(s, e, bins)
  {
    var placed, after := Placed(s, f, e, dir, order), AfterSync(s, f, e, bins, dir, order);
    forall x, y, p | Leads(s, e, x, p) && Leads(s, e, y, p) ensures Want(s, e, x) == Want(s, e, y) {
      assert PointsTo(after, p, Want(s, e, x).value) && PointsTo(after, p, Want(s, e, y).value);
    }
    forall x, p | Leads(s, e, x, p) ensures !(Stray(s, bins, p) && Managed(Link(Want(s, e, x).value))) {
      assert PointsTo(after, p, Want(s, e, x).value);
      SweptAt(s, f, bins, placed, p);
    }
  }

  lemma OrderlyIsLinked(s: Setup, f: Faults, e: Expected, dir: Files, order: seq<Pair>, bins: set<string>)
    requires PlacesFine(f, e) && IsOrder(order, e) && Agreeing(s, e) && Tidy(s, e, bins)
    ensures AllLinked(s, e, AfterSync(s, f, e, bins, dir, order))
  {
    var placed := Placed(s, f, e, dir, order);
    forall x, p | Leads(s, e, x, p) ensures PointsTo(AfterSync(s, f, e, bins, dir, order), p, Want(s, e, x).value) {
      LedToInOrder(s, e, order, p);
      LedIsLinked(s, f, e, dir, order, x, p);
      SweptAt(s, f, bins, placed, p);
    }
  }

  /** A Sync in which nothing fails keeps a link it made exactly when the link is not a stray managed one. */
  lemma LinkStaysWhen(s: Setup, f: Faults, e: Expected, dir: Files, order: seq<Pair>, bins: set<string>, x: Pair)
    requires AllFine(f, e) && IsOrder(order, e) && Agreeing(s, e) && Leads(s, e, x, At(s, x))
    ensures PointsTo(AfterSync(s, f, e, bins, dir, order), At(s, x), Want(s, e, x).value) <==>
            !(Stray(s, bins, At(s, x)) && Managed(Link(Want(s, e, x).value)))
  {
    LedToInOrder(s, e, order, At(s, x));
    LedIsLinked(s, f, e, dir, order, x, At(s, x));
    SweptAt(s, f, bins, Placed(s, f, e, dir, order), At(s, x));
  }

  /**
   A Sync in which nothing fails, from any files and in any order, leaves what it should exactly when exports at one
   path agree and none is linked where the Sync archives it again: each binary or wrapped export is then linked to its
   target, stray managed links are gone and every other file is as it was.
   */
  lemma SyncConvergesWhen(s: Setup, f: Faults, e: Expected, dir: Files, order: seq<Pair>, bins: set<string>)
    requires AllFine(f, e) && IsOrder(order, e)
    ensures Converged(s, e, bins, dir, AfterSync(s, f, e, bins, dir, order)) <==> Agreeing(s, e) && Tidy(s, e, bins)
  {
    var after := AfterSync(s, f, e, bins, dir, order);
    if Agreeing(s, e) && Tidy(s, e, bins) {
      OrderlyIsLinked(s, f, e, dir, order, bins);
      forall p | !LedTo(s, e, p) ensures Cleared(s, bins, dir, after, p) {
        UnledIsSafe(s, f, e, dir, order, bins, p);
      }
    } else if Converged(s, e, bins, dir, after) {
      LinkedIsOrderly(s, f, e, dir, order, bins);
    }
  }

  /**
   Sync heals itself, exactly then: after a Sync in which anything may have failed, one without failures leaves what it
   should have left from the start.
   */
  lemma FailuresAreRepairedWhen(s: Setup, f: Faults, g: Faults, e: Expected, dir: Files,
                                first: seq<Pair>, second: seq<Pair>, bins: set<string>)
    requires AllFine(g, e) && IsOrder(first, e) && IsOrder(second, e)
    ensures Converged(s, e, bins, dir, AfterSync(s, g, e, bins, AfterSync(s, f, e, bins, dir, first), second)) <==>
            Agreeing(s, e) && Tidy(s, e, bins)
  {
    var hurt := AfterSync(s, f, e, bins, dir, first);
    var after := AfterSync(s, g, e, bins, hurt, second);
    if Agreeing(s, e) && Tidy(s, e, bins) {
      SyncConvergesWhen(s, g, e, hurt, second, bins);
      forall p | !LedTo(s, e, p) ensures Cleared(s, bins, dir, after, p) {
        UnledIsSafe(s, f, e, dir, first, bins, p);
        assert Cleared(s, bins, hurt, after, p);
      }
    } else if Converged(s, e, bins, dir, after) {
      LinkedIsOrderly(s, g, e, hurt, second, bins);
    }
  }

  /**
   What a Sync adds to the archive at an entry that no export leads to, whatever fails, and at every entry when placing
   succeeds and the exports are in order: exactly the stray managed links that nothing leads to and whose move succeeds,
   each under its own time.
   */
  lemma ArchivesOnlyOrphans(s: Setup, f: Faults, e: Expected, dir: Files, order: seq<Pair>, bins: set<string>,
                            stamp: string -> string, before: map<Pair, Node>, after: map<Pair, Node>, x: Pair)
    requires IsOrder(order, e) && IsEntryName(x.1)
    requires Archived(s, f, bins, Placed(s, f, e, dir, order), stamp, {}, before, after)
    requires !LedTo(s, e, JoinPath(s.binDir, x.1)) || (PlacesFine(f, e) && Agreeing(s, e) && Tidy(s, e, bins))
    ensures var p := JoinPath(s.binDir, x.1);
            if !LedTo(s, e, p) && Goes(s, f, bins, dir, p) && x.0 == stamp(x.1) then x in after && after[x] == dir[p]
            else (x in after <==> x in before) && (x in before ==> after[x] == before[x])
  {
    var placed, p := Placed(s, f, e, dir, order), JoinPath(s.binDir, x.1);
    assert ArchivedAt(s, f, bins, placed, stamp, {}, before, after, x);
    LedToInOrder(s, e, order, p);
    if y :| Leads(s, e, y, p) {
      LedIsLinked(s, f, e, dir, order, y, p);
    } else {
      UnledIsKept(s, f, e, dir, order, p);
    }
  }

  /** Placing links that are already in place changes nothing, whatever would fail. */
  lemma {:induction false} PlacingAgainIsIdle(s: Setup, f: Faults, e: Expected, dir: Files, order: seq<Pair>)
    requires PairsOf(order, e) && AllLinked(s, e, dir)
    ensures Placed(s, f, e, dir, order) == dir
  {
    if order != [] {
      var x := order[|order| - 1];
      PlacingAgainIsIdle(s, f, e, dir, order[..|order| - 1]);
      assert IsPair(e, x);
      if Want(s, e, x).Some? {
        assert Leads(s, e, x, At(s, x));
      }
    }
  }

  /** A Sync that changes no file and archives nothing. */
  ghost predicate Idle(s: Setup, f: Faults, e: Expected, bins: set<string>, dir: Files, order: seq<Pair>)
    requires PairsOf(order, e)
  {
    && AfterSync(s, f, e, bins, dir, order) == dir
    && forall p :: !Goes(s, f, bins, Placed(s, f, e, dir, order), p)
  }

  /** With the exports in order, a Sync after one without failures is idle, in any order and whatever would fail. */
  lemma SecondSyncIsIdle(s: Setup, f: Faults, g: Faults, e: Expected, dir: Files, bins: set<string>,
                         first: seq<Pair>, second: seq<Pair>)
    requires AllFine(f, e) && IsOrder(first, e) && IsOrder(second, e) && Agreeing(s, e) && Tidy(s, e, bins)
    ensures Idle(s, g, e, bins, AfterSync(s, f, e, bins, dir, first), second)
  {
    var placed, once := Placed(s, f, e, dir, first), AfterSync(s, f, e, bins, dir, first);
    SyncConvergesWhen(s, f, e, dir, first, bins);
    PlacingAgainIsIdle(s, g, e, once, second);
    forall p ensures !Goes(s, g, bins, once, p) && !Goes(s, f, bins, once, p) {
      SweptAt(s, f, bins, placed, p);
    }
    assert Swept(s, g, bins, once) == once;
  }

  ghost predicate AlwaysIdle(s: Setup, f: Faults, g: Faults, e: Expected, bins: set<string>) {
    forall dir, first, second :: IsOrder(first, e) && IsOrder(second, e) ==>
      Idle(s, g, e, bins, AfterSync(s, f, e, bins, dir, first), second)
  }

  /** When nothing fails, a second Sync is always idle exactly when the exports are in order. */
  lemma SecondSyncIsIdleWhen(s: Setup, f: Faults, g: Faults, e: Expected, bins: set<string>)
    requires AllFine(f, e) && AllFine(g, e)
    ensures AlwaysIdle(s, f, g, e, bins) <==> Agreeing(s, e) && Tidy(s, e, bins)
  {
    if Agreeing(s, e) && Tidy(s, e, bins) {
      forall dir, first, second | IsOrder(first, e) && IsOrder(second, e)
        ensures Idle(s, g, e, bins, AfterSync(s, f, e, bins, dir, first), second)
      {
        SecondSyncIsIdle(s, f, g, e, dir, bins, first, second);
      }
    } else if AlwaysIdle(s, f, g, e, bins) {
      IdleIsOrderly(s, f, g, e, bins);
    }
  }

  lemma IdleIsOrderly(s: Setup, f: Faults, g: Faults, e: Expected, bins: set<string>)
    requires AllFine(f, e) && AllFine(g, e) && AlwaysIdle(s, f, g, e, bins)
    ensures Agreeing(s, e) && Tidy(s, e, bins)
  {
    forall x, y, p | Leads(s, e, x, p) && Leads(s, e, y, p)
      ensures Want(s, e, x) == Want(s, e, y)
      ensures !(Stray(s, bins, p) && Managed(Link(Want(s, e, x).value)))
    {
      IdleAgrees(s, f, g, e, bins, x, y, p);
    }
  }

  lemma IdleAgrees(s: Setup, f: Faults, g: Faults, e: Expected, bins: set<string>, x: Pair, y: Pair, p: string)
    requires AllFine(f, e) && AllFine(g, e) && AlwaysIdle(s, f, g, e, bins) && Leads(s, e, x, p) && Leads(s, e, y, p)
    ensures Want(s, e, x) == Want(s, e, y) && !(Stray(s, bins, p) && Managed(Link(Want(s, e, x).value)))
  {
    var a := OrderEndingIn(e, y);
    var b := OrderEndingIn(e, x);
    var placed, once := Placed(s, f, e, map[], a + [y]), AfterSync(s, f, e, bins, map[], a + [y]);
    LastIsLinked(s, f, e, map[], a, y, p);
    SweptAt(s, f, bins, placed, p);
    LastIsLinked(s, g, e, once, b, x, p);
    assert Idle(s, g, e, bins, once, b + [x]);
    SweptAt(s, g, bins, Placed(s, g, e, once, b + [x]), p);
    assert !Goes(s, g, bins, Placed(s, g, e, once, b + [x]), p);
  }

  /** Every wrapped export whose script is not refused stands where its link points. */
  lemma {:induction false} WrapperIsWritten(s: Setup, f: Faults, e: Expected, wrappers: map<string, string>,
                                            order: seq<Pair>, x: Pair)
    requires PairsOf(order, e) && x in order && IsPair(e, x)
    requires IsWrapped(e[x.0][x.1]) && !f.placing(x.0, x.1).WriteFails?
    requires forall y :: IsPair(e, y) && s.wrapperPath(y.0, y.1) == s.wrapperPath(x.0, x.1) ==> y == x
    ensures var r := Wrote(s, f, e, wrappers, order);
            s.wrapperPath(x.0, x.1) in r && r[s.wrapperPath(x.0, x.1)] == s.render(e[x.0][x.1])
  {
    var init, y := order[..|order| - 1], order[|order| - 1];
    assert order == init + [y];
    if y != x {
      WrapperIsWritten(s, f, e, wrappers, init, x);
      assert IsPair(e, y);
    }
  }

  // ---------- Names that lead elsewhere ----------

  /** Two targets at one path, under one name or under "x" and "./x": the placement depends on the iteration order. */
  lemma SharedNameDependsOnOrder(s: Setup, f: Faults, other: string)
    requires s.rel("/a") != s.rel("/b") && other in {"x", "./x"}
    ensures var e := map["p" := map["x" := Native("x", "/a")], "q" := map[other := Native(other, "/b")]];
            PlacesFine(f, e) ==> !OrderIndependent(s, f, e)
  {
    var e := map["p" := map["x" := Native("x", "/a")], "q" := map[other := Native(other, "/b")]];
    var x, y := ("p", "x"), ("q", other);
    assert IsEntryName("x") && "./" + "x" == "./x";
    DotSlash(s.binDir, "x");
    assert Leads(s, e, x, At(s, x)) && Leads(s, e, y, At(s, x));
    if PlacesFine(f, e) {
      OrderIndependentWhen(s, f, e);
    }
  }

  /** An export named "./x" whose target is managed: every Sync links it as "x" and archives that link at once. */
  lemma DotNameIsArchivedAtOnce(s: Setup, f: Faults, dir: Files, target: string)
    requires Managed(Link(s.rel(target)))
    ensures var e: Expected := map["p" := map["./x" := Native("./x", target)]];
            var x := ("p", "./x");
            && IsOrder([x], e) && AreExpected({"./x"}, e) && !Tidy(s, e, {"./x"})
            && (AllFine(f, e) ==>
                PointsTo(Placed(s, f, e, dir, [x]), JoinPath(s.binDir, "x"), s.rel(target))
                && JoinPath(s.binDir, "x") !in AfterSync(s, f, e, {"./x"}, dir, [x]))
  {
    var e: Expected := map["p" := map["./x" := Native("./x", target)]];
    var x, p := ("p", "./x"), JoinPath(s.binDir, "x");
    assert IsEntryName("x") && "./" + "x" == "./x";
    DotSlash(s.binDir, "x");
    EntryBase(s.binDir, "x");
    assert Leads(s, e, x, p) && Stray(s, {"./x"}, p);
    assert IsOrder([x], e);
    if AllFine(f, e) {
      assert [] + [x] == [x];
      LastIsLinked(s, f, e, dir, [], x, p);
      SweptAt(s, f, {"./x"}, Placed(s, f, e, dir, [x]), p);
    }
  }

  /** Names that a directory can list lead to their own entries: then everything hangs on equal names only. */
  lemma PlainNamesAreTidy(s: Setup, e: Expected, bins: set<string>)
    requires AreExpected(bins, e) && forall b :: IsExpectedBin(e, b) ==> IsEntryName(b)
    ensures Tidy(s, e, bins)
    ensures Agreeing(s, e) <==>
            forall x, y :: IsPair(e, x) && IsPair(e, y) && x.1 == y.1 && Want(s, e, x).Some? && Want(s, e, y).Some? ==>
              Want(s, e, x) == Want(s, e, y)
  {
    forall x | IsPair(e, x) ensures IsExpectedBin(e, x.1) && Base(At(s, x)) == x.1 {
      assert x.0 in e && x.1 in e[x.0];
      EntryBase(s.binDir, x.1);
    }
    if Agreeing(s, e) {
      forall x, y | IsPair(e, x) && IsPair(e, y) && x.1 == y.1 && Want(s, e, x).Some? && Want(s, e, y).Some?
        ensures Want(s, e, x) == Want(s, e, y)
      {
        assert Leads(s, e, x, At(s, x)) && Leads(s, e, y, At(s, x));
      }
    }
  }
}
