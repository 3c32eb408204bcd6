/**
 The unpushed count of a working tree: an early-stopping walk of HEAD's history against the tracking ref.
 The commit graph and the walk are given: a duplicate-free enumeration of HEAD's ancestors that starts at HEAD and
 visits a commit only after one of its children.
 */
module Unpushed {
  import opened Sequences
  import opened Wrappers

  type Hash = nat

  /** Never the hash of a commit. */
  const ZERO_HASH: Hash := 0

  type Graph = map<Hash, seq<Hash>>

  // ---------- Commit graphs ----------

  /** A complete, acyclic history: parents are commits of the graph, and `rank` falls along every parent edge. */
  ghost predicate ValidGraph(g: Graph, rank: Hash -> nat) {
    && ZERO_HASH !in g
    && forall c, p :: c in g && p in g[c] ==> p in g && rank(p) < rank(c)
  }

  ghost predicate IsPath(g: Graph, p: seq<Hash>) {
    && p != [] && p[0] in g
    && forall i :: 0 <= i < |p| - 1 ==> p[i] in g && p[i + 1] in g[p[i]]
  }

  ghost predicate Reaches(g: Graph, a: Hash, b: Hash) {
    exists p :: IsPath(g, p) && p[0] == a && p[|p| - 1] == b
  }

  ghost predicate IsWalk(g: Graph, head: Hash, w: seq<Hash>) {
    && w != [] && w[0] == head
    && (forall i, j :: 0 <= i < j < |w| ==> w[i] != w[j])
    && (forall i :: 0 <= i < |w| ==> w[i] in g)
    && (forall i :: 0 < i < |w| ==> HasChildBefore(g, w, i))
    && (forall i, p :: 0 <= i < |w| && p in g[w[i]] ==> p in w)
  }

  ghost predicate HasChildBefore(g: Graph, w: seq<Hash>, i: int)
    requires forall k :: 0 <= k < |w| ==> w[k] in g
    requires 0 <= i < |w|
  {
    exists j :: 0 <= j < i && w[i] in g[w[j]]
  }

  lemma ReachesSelf(g: Graph, a: Hash)
    requires a in g
    ensures Reaches(g, a, a)
  {
    assert IsPath(g, [a]);
  }

  lemma ReachesParent(g: Graph, a: Hash, b: Hash, p: Hash)
    requires Reaches(g, a, b) && b in g && p in g[b]
    ensures Reaches(g, a, p)
  {
    var path :| IsPath(g, path) && path[0] == a && path[|path| - 1] == b;
    var longer := path + [p];
    forall i | 0 <= i < |longer| - 1 ensures longer[i] in g && longer[i + 1] in g[longer[i]] {
      if i < |path| - 1 {
        assert path[i] in g && path[i + 1] in g[path[i]];
      }
    }
    assert IsPath(g, longer) && longer[|longer| - 1] == p;
  }

  /** A set closed under parents contains everything its members reach. */
  lemma ClosedContainsReach(g: Graph, s: set<Hash>, a: Hash, b: Hash)
    requires a in s && Reaches(g, a, b)
    requires forall c, p :: c in s && c in g && p in g[c] ==> p in s
    ensures b in s
  {
    var path :| IsPath(g, path) && path[0] == a && path[|path| - 1] == b;
    PathStaysIn(g, s, path, |path| - 1);
  }

  lemma {:induction false} PathStaysIn(g: Graph, s: set<Hash>, path: seq<Hash>, i: nat)
    requires IsPath(g, path) && path[0] in s && i < |path|
    requires forall c, p :: c in s && c in g && p in g[c] ==> p in s
    ensures path[i] in s
  {
    if i > 0 {
      PathStaysIn(g, s, path, i - 1);
      assert path[i - 1] in g && path[i - 1 + 1] in g[path[i - 1]];
    }
  }

  /** A walk visits exactly the commits HEAD reaches. */
  lemma WalkIsReach(g: Graph, head: Hash, w: seq<Hash>, c: Hash)
    requires IsWalk(g, head, w)
    ensures c in w <==> Reaches(g, head, c)
  {
    if c in w {
      var i :| 0 <= i < |w| && w[i] == c;
      VisitedIsReached(g, head, w, i);
    }
    if Reaches(g, head, c) {
      assert w[0] in Elements(w);
      ClosedContainsReach(g, Elements(w), head, c);
    }
  }

  lemma {:induction false} VisitedIsReached(g: Graph, head: Hash, w: seq<Hash>, i: nat)
    requires IsWalk(g, head, w) && i < |w|
    ensures Reaches(g, head, w[i])
  {
    if i == 0 {
      ReachesSelf(g, head);
    } else {
      assert HasChildBefore(g, w, i);
      var j :| 0 <= j < i && w[i] in g[w[j]];
      VisitedIsReached(g, head, w, j);
      ReachesParent(g, head, w[j], w[i]);
    }
  }

  // ---------- The count ----------

  /** What `repo.Log` gave: nothing, or the commits its iterator produced before it ended or broke off. */
  datatype Log = LogFailed | LogRead(commits: seq<Hash>)

  method CountCommitsUntil(log: Log, stop: Hash) returns (count: nat)
    ensures log.LogFailed? ==> count == 0
    ensures log.LogRead? ==> IsCountUntil(log.commits, stop, count)
  {
    if log.LogFailed? {
      return 0;
    }
    count := 0;
    for i := 0 to |log.commits|
      invariant count == i && stop !in log.commits[..i]
    {
      if log.commits[i] == stop {
        return;
      }
      count := count + 1;
    }
  }

  /** The number of commits before the first occurrence of `stop`. */
  ghost predicate IsCountUntil(commits: seq<Hash>, stop: Hash, count: nat) {
    count <= |commits| && stop !in commits[..count] && (count < |commits| ==> commits[count] == stop)
  }

  /** The count against the tracking ref, when there is a remote and it has one for the branch. */
  method CountUnpushed(log: Log, hasRemote: bool, upstream: Option<Hash>) returns (count: nat, hasUpstream: bool)
    ensures hasUpstream <==> hasRemote && upstream.Some?
    ensures log.LogFailed? ==> count == 0
    ensures log.LogRead? ==>
              IsCountUntil(log.commits, if hasRemote && upstream.Some? then upstream.value else ZERO_HASH, count)
    ensures log.LogRead? ==> IsCountUntil(log.commits, Stop(hasRemote, upstream), count)
  {
    if !hasRemote {
      count := CountCommitsUntil(log, ZERO_HASH);
      return count, false;
    }
    if upstream.None? {
      count := CountCommitsUntil(log, ZERO_HASH);
      return count, false;
    }
    count := CountCommitsUntil(log, upstream.value);
    return count, true;
  }

  function Stop(hasRemote: bool, upstream: Option<Hash>): Hash {
    if hasRemote && upstream.Some? then upstream.value else ZERO_HASH
  }

  /** What a log over a walk may give: it fails, or its iterator breaks off anywhere, before HEAD included. */
  ghost predicate IsLogOf(log: Log, w: seq<Hash>) {
    log.LogRead? ==> log.commits <= w
  }

  /** What the count of a log is against a stop. */
  ghost predicate IsCountOf(log: Log, stop: Hash, count: nat) {
    if log.LogFailed? then count == 0 else IsCountUntil(log.commits, stop, count)
  }

  /**
   Exactly when a log gives zero: it gave nothing at all, or HEAD is the tracking commit. Once the log yields HEAD, even
   if it then breaks off, zero is never a false all clear.
   */
  lemma ZeroExactlyWhen(g: Graph, rank: Hash -> nat, head: Hash, w: seq<Hash>, log: Log,
                        hasRemote: bool, upstream: Option<Hash>, count: nat)
    requires ValidGraph(g, rank) && IsWalk(g, head, w) && IsLogOf(log, w)
    requires IsCountOf(log, Stop(hasRemote, upstream), count)
    ensures count == 0 <==> log.LogFailed? || log.commits == [] || (hasRemote && upstream == Some(head))
  {
    if log.LogRead? && log.commits != [] {
      assert log.commits[0] == w[0] == head;
      assert Stop(hasRemote, upstream) == head <==> hasRemote && upstream == Some(head);
      assert count > 0 ==> log.commits[..count][0] == head;
    }
  }

  /** A false all clear: HEAD is ahead of a tracking ref, but the log cannot be opened, or breaks off before HEAD. */
  lemma FailedLogReadsAsPushed()
    ensures var g := map[2 := [1], 1 := []];
            && ValidGraph(g, h => h) && IsWalk(g, 2, [2, 1]) && Unpushed(g, 2, 1, 2)
            && IsLogOf(LogFailed, [2, 1]) && IsCountOf(LogFailed, Stop(true, Some(1)), 0)
            && IsLogOf(LogRead([]), [2, 1]) && IsCountOf(LogRead([]), Stop(true, Some(1)), 0)
  {
    var g: Graph := map[2 := [1], 1 := []];
    assert IsPath(g, [2]);
    assert [2, 1][1] in g[[2, 1][0]];
    assert IsWalk(g, 2, [2, 1]);
    if Reaches(g, 1, 2) {
      ReachLowersRank(g, h => h, 1, 2);
    }
  }

  /** No tracking commit among HEAD's ancestors: every ancestor counts. */
  lemma UnreachableStopCountsAll(g: Graph, head: Hash, w: seq<Hash>, stop: Hash, count: nat)
    requires IsWalk(g, head, w) && !Reaches(g, head, stop) && IsCountUntil(w, stop, count)
    ensures count == |w| == |Elements(w)|
    ensures forall c :: c in Elements(w) <==> Reaches(g, head, c)
  {
    WalkIsReach(g, head, w, stop);
    DistinctSize(w);
    forall c ensures c in Elements(w) <==> Reaches(g, head, c) {
      WalkIsReach(g, head, w, c);
    }
  }

  lemma {:induction false} DistinctSize(w: seq<Hash>)
    requires forall i, j :: 0 <= i < j < |w| ==> w[i] != w[j]
    ensures |Elements(w)| == |w|
  {
    if w != [] {
      var init, last := w[..|w| - 1], w[|w| - 1];
      DistinctSize(init);
      assert Elements(w) == Elements(init) + {last} && last !in Elements(init);
    }
  }

  // ---------- When the count is the number of unpushed commits ----------

  /** Reached from HEAD and not from the tracking commit. */
  ghost predicate Unpushed(g: Graph, head: Hash, stop: Hash, c: Hash) {
    Reaches(g, head, c) && !Reaches(g, stop, c)
  }

  ghost function UnpushedSet(g: Graph, head: Hash, stop: Hash): set<Hash> {
    set c | c in g && Unpushed(g, head, stop, c)
  }

  /** No unpushed commit is a merge: two parents of one are the same commit. */
  ghost predicate NoUnpushedMerge(g: Graph, head: Hash, stop: Hash) {
    forall c, p, q :: c in g && Unpushed(g, head, stop, c) && p in g[c] && q in g[c] ==> p == q
  }

  /** Nothing of HEAD's history was ever pushed to the tracking ref. */
  ghost predicate NothingShared(g: Graph, head: Hash, stop: Hash) {
    forall c :: c in g && Reaches(g, head, c) ==> !Reaches(g, stop, c)
  }

  /** Every complete walk counts the unpushed commits right. */
  ghost predicate AlwaysCounts(g: Graph, head: Hash, stop: Hash) {
    forall w, count :: IsWalk(g, head, w) && IsCountUntil(w, stop, count) ==> count == |UnpushedSet(g, head, stop)|
  }

  lemma PathRank(g: Graph, rank: Hash -> nat, path: seq<Hash>, i: nat, j: nat)
    requires ValidGraph(g, rank) && IsPath(g, path) && i < j < |path|
    ensures rank(path[j]) < rank(path[i])
    decreases j
  {
    assert path[j - 1] in g && path[j - 1 + 1] in g[path[j - 1]];
    if i < j - 1 {
      PathRank(g, rank, path, i, j - 1);
    }
  }

  lemma PathInGraph(g: Graph, rank: Hash -> nat, path: seq<Hash>, i: nat)
    requires ValidGraph(g, rank) && IsPath(g, path) && i < |path|
    ensures path[i] in g
  {
    if i > 0 {
      assert path[i - 1] in g && path[i - 1 + 1] in g[path[i - 1]];
    }
  }

  lemma ReachLowersRank(g: Graph, rank: Hash -> nat, a: Hash, b: Hash)
    requires ValidGraph(g, rank) && Reaches(g, a, b)
    ensures a in g && b in g && (a == b || rank(b) < rank(a))
  {
    var path :| IsPath(g, path) && path[0] == a && path[|path| - 1] == b;
    PathInGraph(g, rank, path, |path| - 1);
    if |path| > 1 {
      PathRank(g, rank, path, 0, |path| - 1);
    }
  }

  /** A walk so far: it may still lack some of the history. */
  ghost predicate IsPartialWalk(g: Graph, head: Hash, w: seq<Hash>) {
    && w != [] && w[0] == head
    && (forall i, j :: 0 <= i < j < |w| ==> w[i] != w[j])
    && (forall i :: 0 <= i < |w| ==> w[i] in g)
    && (forall i :: 0 < i < |w| ==> HasChildBefore(g, w, i))
  }

  lemma GrowWalk(g: Graph, head: Hash, w: seq<Hash>, i: nat, p: Hash)
    requires IsPartialWalk(g, head, w) && i < |w| && p in g[w[i]] && p in g && p !in w
    ensures IsPartialWalk(g, head, w + [p])
  {
    var w' := w + [p];
    forall k | 0 < k < |w'| ensures HasChildBefore(g, w', k) {
      if k < |w| {
        assert HasChildBefore(g, w, k);
        var j :| 0 <= j < k && w[k] in g[w[j]];
        assert w'[k] in g[w'[j]];
      } else {
        assert w'[k] in g[w'[i]];
      }
    }
  }

  lemma OneLess(s: set<Hash>, w: seq<Hash>, p: Hash)
    requires p in s && p !in w
    ensures |s - Elements(w + [p])| < |s - Elements(w)|
  {
    assert s - Elements(w) == (s - Elements(w + [p])) + {p};
  }

  /** Every walk so far can be continued to a complete one. */
  lemma {:induction false} CompleteWalk(g: Graph, rank: Hash -> nat, head: Hash, w: seq<Hash>) returns (full: seq<Hash>)
    requires ValidGraph(g, rank) && IsPartialWalk(g, head, w)
    ensures IsWalk(g, head, full) && w <= full
    decreases |g.Keys - Elements(w)|
  {
    if i, p :| 0 <= i < |w| && p in g[w[i]] && p !in w {
      GrowWalk(g, head, w, i, p);
      OneLess(g.Keys, w, p);
      full := CompleteWalk(g, rank, head, w + [p]);
    } else {
      full := w;
    }
  }

  /** A path from HEAD is a walk so far. */
  lemma PathIsWalk(g: Graph, rank: Hash -> nat, path: seq<Hash>)
    requires ValidGraph(g, rank) && IsPath(g, path)
    ensures IsPartialWalk(g, path[0], path)
  {
    forall i | 0 <= i < |path| ensures path[i] in g {
      PathInGraph(g, rank, path, i);
    }
    forall i, j | 0 <= i < j < |path| ensures path[i] != path[j] {
      PathRank(g, rank, path, i, j);
    }
    forall i | 0 < i < |path| ensures HasChildBefore(g, path, i) {
      assert path[i - 1] in g && path[i - 1 + 1] in g[path[i - 1]];
    }
  }

  lemma SuffixReaches(g: Graph, rank: Hash -> nat, path: seq<Hash>, k: nat)
    requires ValidGraph(g, rank) && IsPath(g, path) && k < |path|
    ensures Reaches(g, path[k], path[|path| - 1]) && Reaches(g, path[0], path[k])
  {
    PathInGraph(g, rank, path, k);
    var tail, init := path[k..], path[..k + 1];
    forall i | 0 <= i < |tail| - 1 ensures tail[i] in g && tail[i + 1] in g[tail[i]] {
      assert path[k + i] in g && path[k + i + 1] in g[path[k + i]];
    }
    forall i | 0 <= i < |init| - 1 ensures init[i] in g && init[i + 1] in g[init[i]] {
      assert path[i] in g && path[i + 1] in g[path[i]];
    }
    assert IsPath(g, tail) && tail[0] == path[k] && tail[|tail| - 1] == path[|path| - 1];
    assert IsPath(g, init) && init[0] == path[0] && init[|init| - 1] == path[k];
  }

  /** A commit that still reaches the tracking commit is not reached by it, unless it is the tracking commit. */
  lemma AboveIsUnpushed(g: Graph, rank: Hash -> nat, head: Hash, stop: Hash, c: Hash)
    requires ValidGraph(g, rank) && Reaches(g, head, c) && Reaches(g, c, stop)
    ensures c in UnpushedSet(g, head, stop) <==> c != stop
  {
    ReachLowersRank(g, rank, c, stop);
    if c == stop {
      ReachesSelf(g, stop);
    } else if Reaches(g, stop, c) {
      ReachLowersRank(g, rank, stop, c);
    }
  }

  // ---------- Enough: no unpushed merge ----------

  /** The first step of a path to another commit is a parent that reaches it too. */
  lemma ParentOnTheWay(g: Graph, rank: Hash -> nat, c: Hash, stop: Hash) returns (p: Hash)
    requires ValidGraph(g, rank) && Reaches(g, c, stop) && c != stop
    ensures c in g && p in g[c] && Reaches(g, p, stop)
  {
    var path :| IsPath(g, path) && path[0] == c && path[|path| - 1] == stop;
    p := path[1];
    assert path[0] in g && path[0 + 1] in g[path[0]];
    SuffixReaches(g, rank, path, 1);
  }

  /** Up to the stop the walk is a chain of only parents, each still above the stop. */
  lemma {:induction false} WalkIsChain(g: Graph, rank: Hash -> nat, head: Hash, w: seq<Hash>, stop: Hash, n: nat,
                                       i: nat)
    requires ValidGraph(g, rank) && IsWalk(g, head, w) && Reaches(g, head, stop) && NoUnpushedMerge(g, head, stop)
    requires n < |w| && stop !in w[..n] && i <= n
    ensures Reaches(g, w[i], stop)
    ensures forall k, p :: 0 <= k < i && p in g[w[k]] ==> p == w[k + 1]
  {
    if i > 0 {
      WalkIsChain(g, rank, head, w, stop, n, i - 1);
      assert HasChildBefore(g, w, i);
      var j :| 0 <= j < i && w[i] in g[w[j]];
      assert j == i - 1;
      var c := w[i - 1];
      assert c in w[..n];
      WalkIsReach(g, head, w, c);
      AboveIsUnpushed(g, rank, head, stop, c);
      var p := ParentOnTheWay(g, rank, c, stop);
      assert forall q :: q in g[c] ==> q == p;
    }
  }

  /** So what the walk lists before the stop is exactly what is unpushed. */
  lemma ChainIsUnpushed(g: Graph, rank: Hash -> nat, head: Hash, w: seq<Hash>, stop: Hash, count: nat)
    requires ValidGraph(g, rank) && IsWalk(g, head, w) && Reaches(g, head, stop) && NoUnpushedMerge(g, head, stop)
    requires IsCountUntil(w, stop, count)
    ensures Elements(w[..count]) == UnpushedSet(g, head, stop)
  {
    WalkIsReach(g, head, w, stop);
    assert count < |w| by {
      assert w[..|w|] == w;
    }
    forall i | 0 <= i < count ensures w[i] in UnpushedSet(g, head, stop) {
      WalkIsChain(g, rank, head, w, stop, count, i);
      WalkIsReach(g, head, w, w[i]);
      AboveIsUnpushed(g, rank, head, stop, w[i]);
      assert w[i] in w[..count];
    }
    forall c | c in UnpushedSet(g, head, stop) ensures c in w[..count] {
      BelowTheStop(g, rank, head, w, stop, count, c);
    }
  }

  lemma BelowTheStop(g: Graph, rank: Hash -> nat, head: Hash, w: seq<Hash>, stop: Hash, n: nat, c: Hash)
    requires ValidGraph(g, rank) && IsWalk(g, head, w) && Reaches(g, head, stop) && NoUnpushedMerge(g, head, stop)
    requires n < |w| && w[n] == stop && stop !in w[..n] && Reaches(g, head, c)
    ensures c in w[..n] || Reaches(g, stop, c)
  {
    var below := set d | d in g && Reaches(g, stop, d);
    var s := Elements(w[..n]) + below;
    WalkIsChain(g, rank, head, w, stop, n, n);
    ReachesSelf(g, stop);
    forall d, p | d in s && d in g && p in g[d] ensures p in s {
      if d in below {
        ReachesParent(g, stop, d, p);
      } else {
        var k :| 0 <= k < n && w[k] == d;
        assert p == w[k + 1];
        assert k + 1 < n ==> w[..n][k + 1] == p;
      }
    }
    assert head in s by {
      assert n > 0 ==> w[..n][0] == head;
    }
    ClosedContainsReach(g, s, head, c);
  }

  // ---------- Necessary: an unpushed merge misleads some walk ----------

  /** When every walk counts right, every path from HEAD to the stop runs through all that is unpushed. */
  lemma PathIsUnpushed(g: Graph, rank: Hash -> nat, head: Hash, stop: Hash, path: seq<Hash>)
    requires ValidGraph(g, rank) && AlwaysCounts(g, head, stop)
    requires IsPath(g, path) && path[0] == head && path[|path| - 1] == stop
    ensures Elements(path[..|path| - 1]) == UnpushedSet(g, head, stop)
    ensures |path| == |UnpushedSet(g, head, stop)| + 1
  {
    var n := |path| - 1;
    PathIsWalk(g, rank, path);
    var w := CompleteWalk(g, rank, head, path);
    assert w[..n] == path[..n] && w[n] == stop;
    assert IsCountUntil(w, stop, n);
    DistinctSize(path[..n]);
    forall k | 0 <= k < n ensures path[k] in UnpushedSet(g, head, stop) {
      SuffixReaches(g, rank, path, k);
      AboveIsUnpushed(g, rank, head, stop, path[k]);
    }
    SubsetSize(Elements(path[..n]), UnpushedSet(g, head, stop));
  }

  /** The path with `q` walked right after the commit it is a parent of. */
  function Aside(path: seq<Hash>, k: nat, q: Hash): (r: seq<Hash>)
    requires k < |path|
    ensures |r| == |path| + 1
    ensures forall i :: 0 <= i < |r| ==> r[i] == if i <= k then path[i] else if i == k + 1 then q else path[i - 1]
  {
    path[..k + 1] + [q] + path[k + 1..]
  }

  lemma AsideChild(g: Graph, path: seq<Hash>, k: nat, q: Hash, i: nat)
    requires IsPath(g, path) && k < |path| && path[k] in g && q in g[path[k]] && 0 < i <= |path|
    ensures exists j :: 0 <= j < i && Aside(path, k, q)[j] in g && Aside(path, k, q)[i] in g[Aside(path, k, q)[j]]
  {
    var r := Aside(path, k, q);
    if i <= k {
      assert path[i - 1] in g && path[i - 1 + 1] in g[path[i - 1]];
      assert r[i] in g[r[i - 1]];
    } else if i == k + 1 {
      assert r[i] in g[r[k]];
    } else {
      assert path[i - 2] in g && path[i - 2 + 1] in g[path[i - 2]];
      var j := if i == k + 2 then k else i - 1;
      assert r[i] in g[r[j]];
    }
  }

  lemma AsideIsWalk(g: Graph, rank: Hash -> nat, path: seq<Hash>, k: nat, q: Hash)
    requires ValidGraph(g, rank) && IsPath(g, path) && q !in path
    requires k < |path| && path[k] in g && q in g[path[k]]
    ensures IsPartialWalk(g, path[0], Aside(path, k, q))
  {
    PathIsWalk(g, rank, path);
    var r := Aside(path, k, q);
    assert forall i :: 0 <= i < |r| ==> r[i] in g;
    forall i | 0 < i < |r| ensures HasChildBefore(g, r, i) {
      AsideChild(g, path, k, q, i);
    }
  }

  /** A parent that does not reach the stop can be walked before it, and is then counted besides the path. */
  lemma AsideWalk(g: Graph, rank: Hash -> nat, path: seq<Hash>, k: nat, q: Hash) returns (w: seq<Hash>)
    requires ValidGraph(g, rank) && IsPath(g, path) && k < |path| - 1 && path[k] in g && q in g[path[k]]
    requires !Reaches(g, q, path[|path| - 1])
    ensures IsWalk(g, path[0], w) && IsCountUntil(w, path[|path| - 1], |path|)
  {
    var stop, n := path[|path| - 1], |path|;
    PathIsWalk(g, rank, path);
    forall i | 0 <= i < n ensures path[i] != q {
      SuffixReaches(g, rank, path, i);
    }
    AsideIsWalk(g, rank, path, k, q);
    var r := Aside(path, k, q);
    w := CompleteWalk(g, rank, path[0], r);
    assert w[n] == r[n] == stop && w[..n] == r[..n];
    assert forall i :: 0 <= i < n ==> r[i] != stop;
  }

  lemma AllParentsLead(g: Graph, rank: Hash -> nat, head: Hash, stop: Hash, path: seq<Hash>, k: nat, q: Hash)
    requires ValidGraph(g, rank) && IsPath(g, path) && path[0] == head && path[|path| - 1] == stop
    requires AlwaysCounts(g, head, stop) && k < |path| - 1 && path[k] in g && q in g[path[k]]
    ensures Reaches(g, q, stop)
  {
    PathIsUnpushed(g, rank, head, stop, path);
    if !Reaches(g, q, stop) {
      var w := AsideWalk(g, rank, path, k, q);
      assert false;
    }
  }

  /** A path up to `k` and on through another parent is a path. */
  lemma Detour(g: Graph, path: seq<Hash>, k: nat, rest: seq<Hash>)
    requires IsPath(g, path) && IsPath(g, rest) && k < |path| && path[k] in g && rest[0] in g[path[k]]
    ensures IsPath(g, path[..k + 1] + rest)
  {
    var d := path[..k + 1] + rest;
    forall i | 0 <= i < |d| - 1 ensures d[i] in g && d[i + 1] in g[d[i]] {
      if i < k {
        assert path[i] in g && path[i + 1] in g[path[i]];
      } else if i > k {
        assert rest[i - k - 1] in g && rest[i - k - 1 + 1] in g[rest[i - k - 1]];
      }
    }
  }

  /** Two parents that both lead to the stop: a path through `q` runs through `p` as well, and only later. */
  lemma OtherComesLater(g: Graph, rank: Hash -> nat, head: Hash, stop: Hash, path: seq<Hash>, k: nat, p: Hash, q: Hash)
    requires ValidGraph(g, rank) && AlwaysCounts(g, head, stop)
    requires IsPath(g, path) && path[0] == head && path[|path| - 1] == stop && k < |path| - 1 && path[k] in g
    requires p in g[path[k]] && q in g[path[k]] && p != q && Reaches(g, p, stop) && Reaches(g, q, stop) && p != stop
    ensures q != stop && rank(p) < rank(q)
  {
    var rest :| IsPath(g, rest) && rest[0] == q && rest[|rest| - 1] == stop;
    Detour(g, path, k, rest);
    var d := path[..k + 1] + rest;
    PathIsUnpushed(g, rank, head, stop, d);
    assert Reaches(g, head, p) by {
      SuffixReaches(g, rank, path, k);
      ReachesParent(g, head, path[k], p);
    }
    AboveIsUnpushed(g, rank, head, stop, p);
    assert p in Elements(d[..|d| - 1]) && p in d[..|d| - 1];
    assert d[k] == path[k] && d[k + 1] == q;
    AfterItsChild(g, rank, d, k, p);
  }

  /** A parent on a path that goes on through another parent comes after that one. */
  lemma AfterItsChild(g: Graph, rank: Hash -> nat, d: seq<Hash>, k: nat, p: Hash)
    requires ValidGraph(g, rank) && IsPath(g, d) && k + 1 < |d| && d[k] in g && p in g[d[k]]
    requires p in d[..|d| - 1] && p != d[k + 1]
    ensures d[k + 1] != d[|d| - 1] && rank(p) < rank(d[k + 1])
  {
    var i :| 0 <= i < |d| - 1 && d[i] == p;
    if i < k {
      PathRank(g, rank, d, i, k);
    }
    assert i > k + 1;
    PathRank(g, rank, d, k + 1, i);
    PathRank(g, rank, d, k + 1, |d| - 1);
  }

  lemma MergeMisleads(g: Graph, rank: Hash -> nat, head: Hash, stop: Hash, m: Hash, p: Hash, q: Hash)
    requires ValidGraph(g, rank) && Reaches(g, head, stop) && AlwaysCounts(g, head, stop)
    requires m in g && Unpushed(g, head, stop, m) && p in g[m] && q in g[m]
    ensures p == q
  {
    var path :| IsPath(g, path) && path[0] == head && path[|path| - 1] == stop;
    PathIsUnpushed(g, rank, head, stop, path);
    assert m in UnpushedSet(g, head, stop);
    var k := MemberAt(path[..|path| - 1], m);
    AllParentsLead(g, rank, head, stop, path, k, p);
    AllParentsLead(g, rank, head, stop, path, k, q);
    if p != q {
      if p != stop {
        OtherComesLater(g, rank, head, stop, path, k, p, q);
      }
      if q != stop {
        OtherComesLater(g, rank, head, stop, path, k, q, p);
      }
      assert false;
    }
  }

  // ---------- Both together ----------

  /** A stop that is not among HEAD's ancestors leaves the full history as the count. */
  lemma UnreachableCounts(g: Graph, rank: Hash -> nat, head: Hash, stop: Hash)
    requires ValidGraph(g, rank) && head in g && !Reaches(g, head, stop)
    ensures AlwaysCounts(g, head, stop) <==> NothingShared(g, head, stop)
  {
    assert IsPartialWalk(g, head, [head]);
    var w := CompleteWalk(g, rank, head, [head]);
    WalkIsReach(g, head, w, stop);
    assert w[..|w|] == w;
    assert IsCountUntil(w, stop, |w|);
    var u := UnpushedSet(g, head, stop);
    forall v: seq<Hash>, count | IsWalk(g, head, v) && IsCountUntil(v, stop, count)
      ensures count == |Elements(w)| && u <= Elements(w)
    {
      UnreachableStopCountsAll(g, head, v, stop, count);
      UnreachableStopCountsAll(g, head, w, stop, |w|);
      assert Elements(v) == Elements(w);
    }
    assert AlwaysCounts(g, head, stop) <==> |u| == |Elements(w)|;
    if |u| == |Elements(w)| {
      SubsetSize(u, Elements(w));
    }
    forall c | c in g && Reaches(g, head, c) ensures c in Elements(w) {
      WalkIsReach(g, head, w, c);
    }
    if NothingShared(g, head, stop) {
      forall c | c in Elements(w) ensures c in u {
        WalkIsReach(g, head, w, c);
      }
      assert u == Elements(w);
    }
  }

  /**
   Exactly when every complete walk counts the unpushed commits right: with the tracking commit among HEAD's ancestors,
   when no unpushed commit is a merge; with it elsewhere, when none of HEAD's history is below it.
   */
  lemma CountIsExactWhen(g: Graph, rank: Hash -> nat, head: Hash, stop: Hash)
    requires ValidGraph(g, rank) && head in g
    ensures AlwaysCounts(g, head, stop) <==>
            if Reaches(g, head, stop) then NoUnpushedMerge(g, head, stop) else NothingShared(g, head, stop)
  {
    if !Reaches(g, head, stop) {
      UnreachableCounts(g, rank, head, stop);
    } else if NoUnpushedMerge(g, head, stop) {
      forall w, count | IsWalk(g, head, w) && IsCountUntil(w, stop, count)
        ensures count == |UnpushedSet(g, head, stop)|
      {
        ChainIsUnpushed(g, rank, head, w, stop, count);
        DistinctSize(w[..count]);
      }
    } else if AlwaysCounts(g, head, stop) {
      forall c, p, q | c in g && Unpushed(g, head, stop, c) && p in g[c] && q in g[c] ensures p == q {
        MergeMisleads(g, rank, head, stop, c, p, q);
      }
    }
  }

  ghost predicate Linear(g: Graph) {
    forall c :: c in g ==> |g[c]| <= 1
  }

  lemma LinearHasNoMerge(g: Graph, head: Hash, stop: Hash)
    requires Linear(g)
    ensures NoUnpushedMerge(g, head, stop)
  {
  }

  /** In particular on linear history: what is counted is the commits HEAD reaches and the tracking commit does not. */
  lemma LinearCountIsExact(g: Graph, rank: Hash -> nat, head: Hash, w: seq<Hash>, stop: Hash, count: nat)
    requires ValidGraph(g, rank) && IsWalk(g, head, w) && Linear(g)
    requires Reaches(g, head, stop) && IsCountUntil(w, stop, count)
    ensures count == |Elements(w[..count])|
    ensures forall c :: c in Elements(w[..count]) <==> Unpushed(g, head, stop, c)
  {
    LinearHasNoMerge(g, head, stop);
    ChainIsUnpushed(g, rank, head, w, stop, count);
    DistinctSize(w[..count]);
    forall c ensures c in Elements(w[..count]) <==> Unpushed(g, head, stop, c) {
      if Unpushed(g, head, stop, c) {
        ReachLowersRank(g, rank, head, c);
      }
    }
  }

  // ---------- Merges: the count is neither bound ----------

  const DIAMOND: Graph := map[4 := [2, 3], 3 := [1], 2 := [1], 1 := []]

  /**
   After a merge the walk may stop before an unpushed side branch, or count pushed commits: one graph, two valid walks.
   */
  lemma MergesMiscount()
    ensures ValidGraph(DIAMOND, h => h)
    ensures IsWalk(DIAMOND, 4, [4, 2, 1, 3]) && IsCountUntil([4, 2, 1, 3], 2, 1)
    ensures IsWalk(DIAMOND, 4, [4, 3, 1, 2]) && IsCountUntil([4, 3, 1, 2], 2, 3)
    ensures forall c :: Reaches(DIAMOND, 4, c) && !Reaches(DIAMOND, 2, c) <==> c in {4, 3}
  {
    var g, w, v := DIAMOND, [4, 2, 1, 3], [4, 3, 1, 2];
    DiamondWalks();
    assert w[..1] == [4] && v[..3] == [4, 3, 1];
    forall c ensures Reaches(g, 4, c) && !Reaches(g, 2, c) <==> c in {4, 3} {
      WalkIsReach(g, 4, w, c);
      WalkIsReach(g, 2, [2, 1], c);
    }
  }

  lemma DiamondWalks()
    ensures IsWalk(DIAMOND, 4, [4, 2, 1, 3]) && IsWalk(DIAMOND, 4, [4, 3, 1, 2]) && IsWalk(DIAMOND, 2, [2, 1])
  {
    var g, w, v, u := DIAMOND, [4, 2, 1, 3], [4, 3, 1, 2], [2, 1];
    assert w[1] in g[w[0]] && w[2] in g[w[1]] && w[3] in g[w[0]];
    assert v[1] in g[v[0]] && v[2] in g[v[1]] && v[3] in g[v[0]];
    assert u[1] in g[u[0]];
  }

  const RUNG: Graph := map[4 := [3, 2], 3 := [2], 2 := [1], 1 := []]

  lemma RungWalks()
    ensures ValidGraph(RUNG, h => h) && IsWalk(RUNG, 4, [4, 3, 2, 1]) && IsWalk(RUNG, 2, [2, 1])
  {
    var g, w, u := RUNG, [4, 3, 2, 1], [2, 1];
    assert w[1] in g[w[0]] && w[2] in g[w[1]] && w[3] in g[w[2]] && u[1] in g[u[0]];
  }

  /** An unpushed merge of a commit with its own parent: the walk that takes first parents first still counts right. */
  lemma SomeWalkCountsRight()
    ensures ValidGraph(RUNG, h => h) && IsWalk(RUNG, 4, [4, 3, 2, 1]) && IsCountUntil([4, 3, 2, 1], 2, 2)
    ensures UnpushedSet(RUNG, 4, 2) == {4, 3} && !AlwaysCounts(RUNG, 4, 2)
  {
    var w: seq<Hash>, u: seq<Hash> := [4, 3, 2, 1], [2, 1];
    RungWalks();
    UnpushedBetween(RUNG, 4, 2, w, u);
    assert Elements(w) - Elements(u) == {4, 3};
    assert w[..2] == [4, 3];
    assert !NoUnpushedMerge(RUNG, 4, 2) by {
      assert 4 in UnpushedSet(RUNG, 4, 2) && 3 in RUNG[4] && 2 in RUNG[4];
    }
    WalkIsReach(RUNG, 4, w, 2);
    CountIsExactWhen(RUNG, h => h, 4, 2);
  }

  lemma UnpushedBetween(g: Graph, head: Hash, stop: Hash, w: seq<Hash>, u: seq<Hash>)
    requires IsWalk(g, head, w) && IsWalk(g, stop, u)
    ensures UnpushedSet(g, head, stop) == Elements(w) - Elements(u)
  {
    forall c: Hash ensures c in UnpushedSet(g, head, stop) <==> c in Elements(w) - Elements(u) {
      WalkIsReach(g, head, w, c);
      WalkIsReach(g, stop, u, c);
    }
  }

  // ---------- Which ref is the tracking ref ----------

  /** The parts of a repository's config the resolution reads: each branch's remote and each remote's URLs. */
  datatype GitConfig = GitConfig(branches: map<string, string>, remotes: map<string, seq<string>>)

  datatype Remote = Remote(name: string, url: string)

  function FirstUrl(remotes: map<string, seq<string>>, name: string): string {
    if name in remotes && remotes[name] != [] then remotes[name][0] else ""
  }

  /** The branch's configured remote, then "origin", then the only remote there is. */
  method ResolveRemote(cfg: Option<GitConfig>, branch: string) returns (r: Option<Remote>)
    ensures cfg.None? ==> r.None?
    ensures cfg.Some? ==>
              var c := cfg.value;
              if branch in c.branches && c.branches[branch] != "" then r.Some? && r.value.name == c.branches[branch]
              else if "origin" in c.remotes then r.Some? && r.value.name == "origin"
              else (r.Some? <==> |c.remotes| == 1) && (r.Some? ==> c.remotes.Keys == {r.value.name})
    ensures r.Some? ==>
              var remotes, name := cfg.value.remotes, r.value.name;
              r.value.url == if name in remotes && remotes[name] != [] then remotes[name][0] else ""
  {
    if cfg.None? {
      return None;
    }
    var c := cfg.value;
    if branch in c.branches && c.branches[branch] != "" {
      return Some(Remote(c.branches[branch], FirstUrl(c.remotes, c.branches[branch])));
    }
    if "origin" in c.remotes {
      return Some(Remote("origin", FirstUrl(c.remotes, "origin")));
    }
    if |c.remotes| == 1 {
      assert |c.remotes.Keys| == 1;
      var n :| n in c.remotes.Keys;
      OnlyMember(c.remotes.Keys, n);
      return Some(Remote(n, FirstUrl(c.remotes, n)));
    }
    return None;
  }

  lemma OnlyMember(s: set<string>, n: string)
    requires |s| == 1 && n in s
    ensures s == {n}
  {
    var rest := s - {n};
    assert |rest| == 0;
    assert s == rest + {n};
  }
}
