/** The daemon's four root directories: defaults, the derived backups root, and expansion of a leading `~`. */
module Roots {
  import opened CleanPaths
  import opened Paths
  import opened Sequences

  const DEFAULT_INSTALL_ROOT := "~/mesh/prod"
  const DEFAULT_DAEMON_ROOT := "~/var"
  const DEFAULT_CONFIG_ROOT := "~/etc"

  // ---------- Expansion and resolution ----------

  predicate HasTilde(p: string) { p == "~" || HasPrefix(p, "~/") }

  /** `home` is the user's home directory, "" when it cannot be determined. */
  function ExpandHome(p: string, home: string): string {
    if HasTilde(p) && home != "" then Clean(home + "/" + p[1..]) else p
  }

  datatype RootSet = RootSet(monitor: string, daemon: string, backups: string, config: string)

  datatype Env = Env(home: string, installRoot: string)

  function OrDefault(s: string, default: string): string { if s == "" then default else s }

  /**
   What resolution means: each root defaulted and expanded, an unset backups root derived from the expanded daemon
   root.
   */
  function Resolved(c: RootSet, env: Env): RootSet {
    var daemon := ExpandHome(OrDefault(c.daemon, DEFAULT_DAEMON_ROOT), env.home);
    RootSet(
      ExpandHome(OrDefault(c.monitor, OrDefault(env.installRoot, DEFAULT_INSTALL_ROOT)), env.home),
      daemon,
      ExpandHome(OrDefault(c.backups, Clean(daemon + "/backups")), env.home),
      ExpandHome(OrDefault(c.config, DEFAULT_CONFIG_ROOT), env.home))
  }

  class SystemConfig {
    var monitorRoot: string
    var daemonRoot: string
    var backupsRoot: string
    var configRoot: string

    function Roots(): RootSet reads this { RootSet(monitorRoot, daemonRoot, backupsRoot, configRoot) }

    constructor (c: RootSet)
      ensures Roots() == c
    {
      monitorRoot := c.monitor;
      daemonRoot := c.daemon;
      backupsRoot := c.backups;
      configRoot := c.config;
    }

    method ResolveRoots(env: Env)
      modifies this
      ensures Roots() == Resolved(old(Roots()), env)
    {
      if monitorRoot == "" {
        if env.installRoot != "" {
          monitorRoot := env.installRoot;
        } else {
          monitorRoot := DEFAULT_INSTALL_ROOT;
        }
      }
      if daemonRoot == "" {
        daemonRoot := DEFAULT_DAEMON_ROOT;
      }
      if configRoot == "" {
        configRoot := DEFAULT_CONFIG_ROOT;
      }
      daemonRoot := ExpandHome(daemonRoot, env.home);
      if backupsRoot == "" {
        backupsRoot := Clean(daemonRoot + "/backups");
      }
      monitorRoot := ExpandHome(monitorRoot, env.home);
      backupsRoot := ExpandHome(backupsRoot, env.home);
      configRoot := ExpandHome(configRoot, env.home);
    }
  }

  // ---------- Where the roots end up ----------

  /** A path of plain names: no empty, "." or ".." components. */
  ghost predicate PlainNames(cs: seq<string>) {
    cs != [] && ValidPath(cs) && forall i :: 0 <= i < |cs| ==> cs[i] != "." && cs[i] != ".."
  }

  lemma CleanRooted(q: string, cs: seq<string>)
    requires Reduce([], Split(q), true) == cs
    ensures Clean("/" + q) == "/" + Join(cs)
  {
    assert ("/" + q)[1..] == q;
  }

  lemma ReduceBelow(cs: seq<string>, below: seq<string>)
    requires PlainNames(cs) && PlainNames(below)
    ensures Reduce([], cs + below, true) == cs + below && Reduce([], cs + ([""] + below), true) == cs + below
  {
    PushNamesRooted([], cs);
    PushNamesRooted(cs, below);
    assert [] + cs == cs;
    ReduceConcat([], cs, below, true);
    ReduceConcat([], cs, [""] + below, true);
    assert ([""] + below)[1..] == below;
  }

  /** A plain path below an absolute one is joined by a slash, however many slashes stood between them. */
  lemma CleanBelow(cs: seq<string>, below: seq<string>)
    requires PlainNames(cs) && PlainNames(below)
    ensures Clean("/" + (Join(cs) + "/" + Join(below))) == "/" + (Join(cs) + "/" + Join(below))
    ensures Clean("/" + (Join(cs) + "/" + ("" + "/" + Join(below)))) == "/" + (Join(cs) + "/" + Join(below))
  {
    SplitOfJoin(cs);
    SplitOfJoin(below);
    SplitJoined(Join(cs), Join(below));
    SplitJoined("", Join(below));
    SplitJoined(Join(cs), "" + "/" + Join(below));
    ReduceBelow(cs, below);
    JoinConcat(cs, below);
    CleanRooted(Join(cs) + "/" + Join(below), cs + below);
    CleanRooted(Join(cs) + "/" + ("" + "/" + Join(below)), cs + below);
  }

  lemma {:induction false} JoinConcat(a: seq<string>, b: seq<string>)
    requires ValidPath(a) && ValidPath(b) && a != [] && b != []
    ensures Join(a + b) == Join(a) + "/" + Join(b)
  {
    var n := |b| - 1;
    assert (a + b)[..|a| + n] == a + b[..n] && (a + b)[|a| + n] == b[n];
    if n > 0 {
      JoinConcat(a, b[..n]);
      assert Join(a) + "/" + (Join(b[..n]) + "/" + b[n]) == Join(a) + "/" + Join(b[..n]) + "/" + b[n];
    } else {
      assert a + b[..0] == a;
    }
  }

  lemma {:induction false} PushNamesRooted(stack: seq<string>, names: seq<string>)
    requires forall i :: 0 <= i < |names| ==> names[i] != "" && names[i] != "." && names[i] != ".."
    ensures Reduce(stack, names, true) == stack + names
    decreases |names|
  {
    if names == [] {
      assert stack + names == stack;
    } else {
      PushNamesRooted(stack + [names[0]], names[1..]);
      assert stack + [names[0]] + names[1..] == stack + names;
    }
  }

  lemma ExpandsBelow(home: string, cs: seq<string>, p: string, below: seq<string>)
    requires PlainNames(cs) && home == "/" + Join(cs) && PlainNames(below) && p == "~/" + Join(below)
    ensures ExpandHome(p, home) == home + "/" + Join(below)
  {
    CleanBelow(cs, below);
    assert p[1..] == "" + "/" + Join(below);
    Regroup("/", Join(cs), "/" + p[1..]);
    Regroup(Join(cs), "/", p[1..]);
    Regroup(home, "/", p[1..]);
    Regroup("/", Join(cs), "/" + Join(below));
    Regroup(Join(cs), "/", Join(below));
    Regroup(home, "/", Join(below));
  }

  lemma AbsoluteIsKept(p: string, home: string)
    requires p != "" && p[0] == '/'
    ensures ExpandHome(p, home) == p
  {
  }

  lemma UnsetResolves(env: Env, roots: RootSet)
    requires env.installRoot == "" && roots.backups != ""
    requires ExpandHome(DEFAULT_INSTALL_ROOT, env.home) == roots.monitor
    requires ExpandHome(DEFAULT_DAEMON_ROOT, env.home) == roots.daemon
    requires ExpandHome(DEFAULT_CONFIG_ROOT, env.home) == roots.config
    requires Clean(roots.daemon + "/backups") == roots.backups == ExpandHome(roots.backups, env.home)
    ensures Resolved(RootSet("", "", "", ""), env) == roots
  {
  }

  lemma ShortJoins()
    ensures Join(["var"]) == "var" && Join(["etc"]) == "etc" && Join(["backups"]) == "backups"
    ensures Join(["mesh", "prod"]) == "mesh/prod"
  {
    assert ["mesh", "prod"][..1] == ["mesh"];
  }

  lemma BackupsBelow(daemon: string, cs: seq<string>)
    requires PlainNames(cs) && daemon == "/" + Join(cs)
    ensures Clean(daemon + "/backups") == daemon + "/backups"
  {
    var j, tail := Join(cs), Join(["backups"]);
    assert "/" + tail == "/backups" && PlainNames(["backups"]);
    CleanBelow(cs, ["backups"]);
    Regroup("/", j, "/" + tail);
    Regroup(j, "/", tail);
  }

  lemma DaemonBelow(home: string, cs: seq<string>)
    requires PlainNames(cs) && home == "/" + Join(cs)
    ensures home + "/var" == "/" + Join(cs + ["var"]) && PlainNames(cs + ["var"])
  {
    var j, tail := Join(cs), Join(["var"]);
    assert "/" + tail == "/var" && PlainNames(["var"]);
    JoinConcat(cs, ["var"]);
    Regroup("/", j, "/" + tail);
    Regroup(j, "/", tail);
  }

  lemma DefaultBelow(home: string, cs: seq<string>, p: string, below: seq<string>, place: string)
    requires PlainNames(cs) && home == "/" + Join(cs) && PlainNames(below)
    requires p == "~/" + Join(below) && place == "/" + Join(below)
    ensures ExpandHome(p, home) == home + place
  {
    ExpandsBelow(home, cs, p, below);
    Regroup(home, "/", Join(below));
  }

  lemma DefaultsBelow(home: string, cs: seq<string>)
    requires PlainNames(cs) && home == "/" + Join(cs)
    ensures ExpandHome(DEFAULT_INSTALL_ROOT, home) == home + "/mesh/prod"
    ensures ExpandHome(DEFAULT_DAEMON_ROOT, home) == home + "/var"
    ensures ExpandHome(DEFAULT_CONFIG_ROOT, home) == home + "/etc"
  {
    Defaults();
    ShortJoins();
    DefaultBelow(home, cs, DEFAULT_INSTALL_ROOT, ["mesh", "prod"], "/mesh/prod");
    DefaultBelow(home, cs, DEFAULT_DAEMON_ROOT, ["var"], "/var");
    DefaultBelow(home, cs, DEFAULT_CONFIG_ROOT, ["etc"], "/etc");
  }

  lemma Defaults()
    ensures DEFAULT_INSTALL_ROOT == "~/" + "mesh/prod" && "/mesh/prod" == "/" + "mesh/prod"
    ensures DEFAULT_DAEMON_ROOT == "~/" + "var" && "/var" == "/" + "var"
    ensures DEFAULT_CONFIG_ROOT == "~/" + "etc" && "/etc" == "/" + "etc"
  {
  }

  /** Nothing configured, under an absolute and clean home: the documented places. */
  lemma DefaultsAre(home: string, cs: seq<string>)
    requires PlainNames(cs) && home == "/" + Join(cs)
    ensures Resolved(RootSet("", "", "", ""), Env(home, "")) ==
            RootSet(home + "/mesh/prod", home + "/var", home + "/var" + "/backups", home + "/etc")
  {
    DefaultsBelow(home, cs);
    DaemonBelow(home, cs);
    BackupsBelow(home + "/var", cs + ["var"]);
    AbsoluteIsKept(home + "/var" + "/backups", home);
    UnsetResolves(
      Env(home, ""), RootSet(home + "/mesh/prod", home + "/var", home + "/var" + "/backups", home + "/etc"));
  }

  /** A configured root that does not start with a tilde wins as it is; so does the environment's install root. */
  lemma ConfiguredWins(c: RootSet, env: Env)
    ensures c.monitor != "" && c.monitor[0] != '~' ==> Resolved(c, env).monitor == c.monitor
    ensures c.monitor == "" && env.installRoot != "" && env.installRoot[0] != '~' ==>
              Resolved(c, env).monitor == env.installRoot
    ensures c.daemon != "" && c.daemon[0] != '~' ==> Resolved(c, env).daemon == c.daemon
    ensures c.backups != "" && c.backups[0] != '~' ==> Resolved(c, env).backups == c.backups
    ensures c.config != "" && c.config[0] != '~' ==> Resolved(c, env).config == c.config
    ensures env.home == "" && c.daemon != "" && c.backups == "" ==>
              Resolved(c, env).backups == Clean(c.daemon + "/backups")
  {
  }

  // ---------- When expanding twice is expanding once ----------

  function HomeStack(home: string): seq<string> { Reduce([], Split(home), false) }

  /** Unknown, absolute, climbing out of the working directory, or literally a directory called "~". */
  predicate Tame(home: string) {
    || home == "" || home[0] == '/'
    || (HomeStack(home) != [] && HomeStack(home)[0] == "..")
    || HomeStack(home) == ["~"]
  }

  /** Every ".." of a normal stack has only ".." below it. */
  lemma {:induction false} DotsBelow(stack: seq<string>, i: nat)
    requires Normal(stack) && i < |stack| && stack[i] == ".."
    ensures stack[0] == ".."
  {
    if i > 0 {
      DotsBelow(stack, i - 1);
    }
  }

  lemma {:induction false} PushNames(stack: seq<string>, names: seq<string>)
    requires forall i :: 0 <= i < |names| ==> names[i] != "" && names[i] != "." && names[i] != ".."
    ensures Reduce(stack, names, false) == stack + names
    decreases |names|
  {
    if names == [] {
      assert stack + names == stack;
    } else {
      PushNames(stack + [names[0]], names[1..]);
      assert stack + [names[0]] + names[1..] == stack + names;
    }
  }

  lemma {:induction false} JoinHasSlash(cs: seq<string>)
    requires |cs| >= 2
    ensures '/' in Join(cs)
  {
    var s := Join(cs[..|cs| - 1]) + "/";
    assert s[|s| - 1] == '/' && s[|s| - 1] in s;
    assert Join(cs) == s + cs[|cs| - 1];
  }

  /** A joined path starts with `~` as a component exactly when that is its first component. */
  lemma TildeOfJoin(cs: seq<string>)
    requires ValidPath(cs) && cs != []
    ensures HasTilde(Join(cs)) <==> cs[0] == "~"
  {
    PrefixAtSlash(cs, "~");
    assert "~" + "/" == "~/";
    if k :| 1 <= k < |cs| && Join(cs[..k]) == "~" {
      if k >= 2 {
        JoinHasSlash(cs[..k]);
      }
    }
    if |cs| >= 2 {
      JoinHasSlash(cs);
      assert Join(cs[..1]) == cs[0];
    }
  }

  /** Expansion against a relative home: the rest of the path pushed on the home's stack. */
  lemma RelativeExpansion(p: string, home: string)
    requires HasTilde(p) && home != "" && home[0] != '/'
    ensures var s := Reduce(HomeStack(home), Split(p[1..]), false);
            ExpandHome(p, home) == (if s == [] then "." else Join(s)) && Normal(s) && Normal(HomeStack(home))
  {
    SplitJoined(home, p[1..]);
    ReduceConcat([], Split(home), Split(p[1..]), false);
    SplitHasNoSlash(home);
    SplitHasNoSlash(p[1..]);
    ReduceIsNormal([], Split(home));
    ReduceIsNormal(HomeStack(home), Split(p[1..]));
    assert (home + "/" + p[1..])[0] == home[0];
  }

  lemma SplitAfterTilde(s: seq<string>)
    requires ValidPath(s) && s != [] && s[0] == "~"
    ensures HasTilde(Join(s)) && Split(Join(s)[1..]) == [""] + s[1..]
  {
    TildeOfJoin(s);
    if |s| == 1 {
      assert Join(s)[1..] == "";
    } else {
      JoinHasSlash(s);
      SplitOfJoin(s);
      SplitAfterFirst(Join(s), s);
    }
  }

  lemma SplitAfterFirst(r: string, s: seq<string>)
    requires HasPrefix(r, "~/") && Split(r) == s
    ensures Split(r[1..]) == [""] + s[1..]
  {
    var tail := r[2..];
    assert s == ["~"] + Split(tail) by {
      assert r == "~" + "/" + tail;
      SplitJoined("~", tail);
      SplitName("~");
    }
    assert r[1..] == "" + "/" + tail;
    SplitJoined("", tail);
  }

  lemma NamesAboveTilde(s: seq<string>)
    requires Normal(s) && s != [] && s[0] == "~"
    ensures forall i :: 0 <= i < |s[1..]| ==> s[1..][i] != "" && s[1..][i] != "." && s[1..][i] != ".."
  {
    forall i | 0 <= i < |s[1..]| ensures s[1..][i] != "" && s[1..][i] != "." && s[1..][i] != ".." {
      assert s[1..][i] == s[i + 1];
      assert ValidName(s[i + 1]);
      if s[i + 1] == ".." {
        DotsBelow(s, i + 1);
      }
    }
  }

  /** A home that is literally "~": expanding the result pushes the same names again. */
  lemma TildeHomeIsStable(s: seq<string>, home: string)
    requires home != "" && home[0] != '/' && HomeStack(home) == ["~"]
    requires Normal(s) && s != [] && s[0] == "~"
    ensures ExpandHome(Join(s), home) == Join(s)
  {
    SplitAfterTilde(s);
    NamesAboveTilde(s);
    RelativeExpansion(Join(s), home);
    PushNothing(["~"], s[1..]);
    PushNames(["~"], s[1..]);
    assert ["~"] + s[1..] == s;
  }

  lemma TameIsIdempotent(p: string, home: string)
    requires Tame(home)
    ensures ExpandHome(ExpandHome(p, home), home) == ExpandHome(p, home)
  {
    if HasTilde(p) && home != "" {
      var r := ExpandHome(p, home);
      if home[0] == '/' {
        assert (home + "/" + p[1..])[0] == '/';
        assert r[0] == '/';
      } else {
        RelativeExpansion(p, home);
        var s := Reduce(HomeStack(home), Split(p[1..]), false);
        if s != [] {
          TildeOfJoin(s);
          SplitHasNoSlash(p[1..]);
          ReduceIsNormal(HomeStack(home), Split(p[1..]));
          if s[0] == "~" {
            TildeHomeIsStable(s, home);
          }
        }
      }
    }
  }

  // ---------- The failing homes ----------

  function Climb(n: nat): seq<string> { if n == 0 then ["~"] else [".."] + Climb(n - 1) }

  /** A path that climbs out of a home of depth n into a directory called "~". */
  function ClimbingPath(n: nat): string { "~/" + Join(Climb(n)) }

  lemma {:induction false} ClimbIsValid(n: nat)
    ensures ValidPath(Climb(n)) && Climb(n) != []
  {
    if n > 0 {
      ClimbIsValid(n - 1);
    }
  }

  lemma {:induction false} ClimbReduces(stack: seq<string>)
    requires Normal(stack) && (stack != [] ==> stack[0] != "..")
    ensures Reduce(stack, Climb(|stack|), false) == ["~"]
    decreases |stack|
  {
    var n := |stack|;
    if n == 0 {
      assert Climb(0)[1..] == [];
    } else {
      if stack[n - 1] == ".." {
        DotsBelow(stack, n - 1);
      }
      assert Climb(n)[1..] == Climb(n - 1);
      ClimbReduces(stack[..n - 1]);
    }
  }

  lemma ClimbSplits(n: nat)
    ensures HasTilde(ClimbingPath(n)) && Split(ClimbingPath(n)[1..]) == [""] + Climb(n)
  {
    assert ClimbingPath(n)[1..] == "" + "/" + Join(Climb(n));
    SplitJoined("", Join(Climb(n)));
    ClimbIsValid(n);
    SplitOfJoin(Climb(n));
  }

  lemma ClimbExpands(home: string)
    requires !Tame(home)
    ensures ExpandHome(ClimbingPath(|HomeStack(home)|), home) == "~"
  {
    var h := HomeStack(home);
    var n := |h|;
    var p := ClimbingPath(n);
    RelativeExpansion(p, home);
    ClimbSplits(n);
    PushNothing(h, Climb(n));
    ClimbReduces(h);
  }

  /** An empty component, as after a trailing or doubled separator, is nothing. */
  lemma PushNothing(stack: seq<string>, cs: seq<string>)
    ensures Reduce(stack, [""] + cs, false) == Reduce(stack, cs, false)
  {
    assert ([""] + cs)[1..] == cs;
  }

  lemma WildIsNotIdempotent(home: string)
    requires !Tame(home)
    ensures var p := ClimbingPath(|HomeStack(home)|);
            p != "" && ExpandHome(ExpandHome(p, home), home) != ExpandHome(p, home)
  {
    var h := HomeStack(home);
    ClimbExpands(home);
    RelativeExpansion("~", home);
    assert Reduce(h, [""], false) == h;
    if |h| >= 2 {
      JoinHasSlash(h);
    }
  }

  /**
   Expanding `~` twice is expanding it once for every path exactly when the home is tame; "does not start with ~" is
   neither enough nor needed.
   */
  lemma ExpansionIsIdempotentWhen(home: string)
    ensures (forall p :: ExpandHome(ExpandHome(p, home), home) == ExpandHome(p, home)) <==> Tame(home)
  {
    if Tame(home) {
      forall p ensures ExpandHome(ExpandHome(p, home), home) == ExpandHome(p, home) {
        TameIsIdempotent(p, home);
      }
    } else {
      WildIsNotIdempotent(home);
    }
  }

  lemma ExpandedIsNonEmpty(p: string, home: string)
    requires p != ""
    ensures ExpandHome(p, home) != ""
  {
    CleanIsNonEmpty(home + "/" + p[1..]);
  }

  lemma ResolvedOnce(c: RootSet, env: Env)
    requires Tame(env.home)
    ensures Resolved(Resolved(c, env), env) == Resolved(c, env)
  {
    var daemon := OrDefault(c.daemon, DEFAULT_DAEMON_ROOT);
    var monitor := OrDefault(c.monitor, OrDefault(env.installRoot, DEFAULT_INSTALL_ROOT));
    var config := OrDefault(c.config, DEFAULT_CONFIG_ROOT);
    var backups := OrDefault(c.backups, Clean(ExpandHome(daemon, env.home) + "/backups"));
    CleanIsNonEmpty(ExpandHome(daemon, env.home) + "/backups");
    ExpandedIsNonEmpty(daemon, env.home);
    ExpandedIsNonEmpty(monitor, env.home);
    ExpandedIsNonEmpty(config, env.home);
    ExpandedIsNonEmpty(backups, env.home);
    TameIsIdempotent(daemon, env.home);
    TameIsIdempotent(monitor, env.home);
    TameIsIdempotent(config, env.home);
    TameIsIdempotent(backups, env.home);
  }

  /** Resolving the roots is idempotent on every configuration exactly when the environment's home is tame. */
  lemma ResolutionIsIdempotentWhen(env: Env)
    ensures (forall c :: Resolved(Resolved(c, env), env) == Resolved(c, env)) <==> Tame(env.home)
  {
    if Tame(env.home) {
      forall c ensures Resolved(Resolved(c, env), env) == Resolved(c, env) {
        ResolvedOnce(c, env);
      }
    } else {
      var p := ClimbingPath(|HomeStack(env.home)|);
      WildIsNotIdempotent(env.home);
      ExpandedIsNonEmpty(p, env.home);
      var c := RootSet("", "", "", p);
      assert Resolved(Resolved(c, env), env).config != Resolved(c, env).config;
    }
  }

  /** A home that does not start with "~" and still fails. */
  lemma RelativeHomeFails()
    ensures var env, c := Env("h", ""), RootSet("", "~/../~", "", "");
            Resolved(c, env).daemon == "~" && Resolved(Resolved(c, env), env).daemon == "h"
  {
    SplitName("h");
    assert HomeStack("h") == ["h"] by {
      assert Reduce([], ["h"], false) == Reduce(["h"], [], false);
    }
    assert Climb(1) == ["..", "~"] && Climb(0) == ["~"];
    assert ["..", "~"][..1] == [".."];
    assert ClimbingPath(1) == "~/../~";
    ClimbExpands("h");
    RelativeExpansion("~", "h");
    assert Split("~"[1..]) == [""];
    assert Reduce(["h"], [""], false) == Reduce(["h"], [], false);
  }
}
