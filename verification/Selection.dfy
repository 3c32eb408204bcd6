/** Which entries of a project tree a checkpoint contains: the pruned walk, and the flat filter it amounts to. */
module Selection {
  import opened Paths

  /** A directory may be unreadable; then its listing plays no part. Symbolic links are files to the walk. */
  datatype Node = File(name: string) | Dir(name: string, readable: bool, children: seq<Node>)

  datatype Entry = Entry(path: string, isDir: bool)

  datatype Walk = Done(entries: seq<Entry>) | Aborted

  predicate IsSkippedDir(name: string) { name in {".git", ".venv", "node_modules", "__pycache__"} }

  predicate IsSkippedFile(name: string) { Ext(name) in {".o", ".so", ".pyc"} }

  /** The code's exclusion test, on strings. */
  predicate MatchesExclude(relPath: string, exclude: seq<string>) {
    exists e :: e in exclude && Trim(e) != "" &&
      (relPath == Trim(e) || HasPrefix(relPath, Trim(e) + "/") || Base(relPath) == Trim(e))
  }

  // ---------- The pruned walk ----------

  function WalkNode(dir: string, n: Node, exclude: seq<string>): Walk
    decreases n, 1
  {
    var relPath := Child(dir, n.name);
    match n
    case File(name) =>
      if IsSkippedFile(name) || MatchesExclude(relPath, exclude) then Done([])
      else Done([Entry(relPath, false)])
    case Dir(name, readable, children) =>
      if IsSkippedDir(name) || MatchesExclude(relPath, exclude) then Done([])
      else if !readable then Aborted
      else
        match WalkAll(relPath, children, exclude)
        case Aborted => Aborted
        case Done(below) => Done([Entry(relPath, true)] + below)
  }

  function WalkAll(dir: string, ns: seq<Node>, exclude: seq<string>): Walk
    decreases ns, 0
  {
    if ns == [] then Done([])
    else
      match WalkNode(dir, ns[0], exclude)
      case Aborted => Aborted
      case Done(first) =>
        match WalkAll(dir, ns[1..], exclude)
        case Aborted => Aborted
        case Done(rest) => Done(first + rest)
  }

  /** The walk from the project root, which is itself never tested and never emitted. */
  function WalkCheckpoint(root: Node, exclude: seq<string>): Walk {
    match root
    case File(_) => Done([])
    case Dir(_, readable, children) => if readable then WalkAll("", children, exclude) else Aborted
  }

  // ---------- The flat filter ----------

  datatype Item = Item(comps: seq<string>, isDir: bool, readable: bool)

  /** Every entry below `comps`, in walk order, by its component list. */
  function Flatten(comps: seq<string>, n: Node): seq<Item>
    decreases n, 1
  {
    match n
    case File(name) => [Item(comps + [name], false, true)]
    case Dir(name, readable, children) =>
      [Item(comps + [name], true, readable)] + FlattenAll(comps + [name], children)
  }

  function FlattenAll(comps: seq<string>, ns: seq<Node>): seq<Item>
    decreases ns, 0
  {
    if ns == [] then [] else Flatten(comps, ns[0]) + FlattenAll(comps, ns[1..])
  }

  /** An entry is hit when its name is a built-in skip, or an exclude is its whole path or its bare name. */
  predicate Hit(comps: seq<string>, isDir: bool, exclude: seq<string>)
    requires comps != []
  {
    var name := comps[|comps| - 1];
    || (isDir && name in {".git", ".venv", "node_modules", "__pycache__"})
    || (!isDir && (HasSuffix(name, ".o") || HasSuffix(name, ".so") || HasSuffix(name, ".pyc")))
    || exists e :: e in exclude && Trim(e) != "" && (Join(comps) == Trim(e) || name == Trim(e))
  }

  lemma SkippedFileWhen(name: string)
    requires ValidName(name)
    ensures IsSkippedFile(name) <==> HasSuffix(name, ".o") || HasSuffix(name, ".so") || HasSuffix(name, ".pyc")
  {
    ExtIsSuffix(name, "o");
    ExtIsSuffix(name, "so");
    ExtIsSuffix(name, "pyc");
    assert "." + "o" == ".o" && "." + "so" == ".so" && "." + "pyc" == ".pyc";
  }

  /** Neither the entry nor any ancestor directory is hit. */
  ghost predicate Survives(comps: seq<string>, isDir: bool, exclude: seq<string>) {
    forall k :: 1 <= k <= |comps| ==> !Hit(comps[..k], k < |comps| || isDir, exclude)
  }

  ghost function Keep(items: seq<Item>, exclude: seq<string>): seq<Item> {
    if items == [] then []
    else (if Survives(items[0].comps, items[0].isDir, exclude) then [items[0]] else []) + Keep(items[1..], exclude)
  }

  ghost function Entries(items: seq<Item>): seq<Entry> {
    if items == [] then [] else [Entry(Join(items[0].comps), items[0].isDir)] + Entries(items[1..])
  }

  ghost predicate AllReadable(items: seq<Item>) {
    forall i :: 0 <= i < |items| ==> items[i].readable
  }

  // ---------- Valid trees ----------

  ghost predicate ValidTree(n: Node) {
    ValidName(n.name) && (n.Dir? ==> forall c :: c in n.children ==> ValidTree(c))
  }

  // ---------- The walk is the filter ----------

  lemma {:induction false} KeepAppend(a: seq<Item>, b: seq<Item>, exclude: seq<string>)
    ensures Keep(a + b, exclude) == Keep(a, exclude) + Keep(b, exclude)
  {
    if a == [] {
      assert a + b == b;
    } else {
      assert (a + b)[1..] == a[1..] + b;
      KeepAppend(a[1..], b, exclude);
    }
  }

  lemma {:induction false} EntriesAppend(a: seq<Item>, b: seq<Item>)
    ensures Entries(a + b) == Entries(a) + Entries(b)
  {
    if a == [] {
      assert a + b == b;
    } else {
      assert (a + b)[1..] == a[1..] + b;
      EntriesAppend(a[1..], b);
    }
  }

  /** Under pruning the code's test is the component test: its prefix clause can only repeat an ancestor's verdict. */
  lemma PrefixClauseAddsNothing(comps: seq<string>, name: string, isDir: bool, exclude: seq<string>)
    requires ValidPath(comps) && ValidName(name) && Survives(comps, true, exclude)
    ensures (if isDir then IsSkippedDir(name) else IsSkippedFile(name)) || MatchesExclude(Join(comps + [name]), exclude)
            <==> Hit(comps + [name], isDir, exclude)
  {
    var cs := comps + [name];
    SkippedFileWhen(name);
    BaseOfJoin(cs);
    forall e | e in exclude && Trim(e) != "" ensures !HasPrefix(Join(cs), Trim(e) + "/") {
      PrefixAtSlash(cs, Trim(e));
      forall k | 1 <= k < |cs| ensures Join(cs[..k]) != Trim(e) {
        assert cs[..k] == comps[..k];
        assert !Hit(comps[..k], true, exclude);
      }
    }
  }

  /** The path, or one of the directories it lies in. */
  ghost predicate IsPathOrParent(cs: seq<string>, e: string) { exists k :: 1 <= k <= |cs| && Join(cs[..k]) == e }

  lemma PathOrParent(cs: seq<string>, e: string)
    requires ValidPath(cs) && cs != []
    ensures Join(cs) == e || HasPrefix(Join(cs), e + "/") <==> IsPathOrParent(cs, e)
  {
    PrefixAtSlash(cs, e);
    assert cs[..|cs|] == cs;
  }

  /** The exclusion test on any path: a trimmed exclude is the path, one of its parents, or its bare name. */
  lemma MatchesExcludeWhen(cs: seq<string>, exclude: seq<string>)
    requires ValidPath(cs) && cs != []
    ensures MatchesExclude(Join(cs), exclude) <==>
            exists e :: e in exclude && Trim(e) != "" && (IsPathOrParent(cs, Trim(e)) || cs[|cs| - 1] == Trim(e))
  {
    BaseOfJoin(cs);
    var path, name := Join(cs), cs[|cs| - 1];
    if e :| e in exclude && Trim(e) != "" && (path == Trim(e) || HasPrefix(path, Trim(e) + "/") || name == Trim(e)) {
      PathOrParent(cs, Trim(e));
    }
    if e :| e in exclude && Trim(e) != "" && (IsPathOrParent(cs, Trim(e)) || name == Trim(e)) {
      PathOrParent(cs, Trim(e));
    }
  }

  lemma SurvivesChild(comps: seq<string>, name: string, isDir: bool, exclude: seq<string>)
    requires Survives(comps, true, exclude)
    ensures Survives(comps + [name], isDir, exclude) <==> !Hit(comps + [name], isDir, exclude)
  {
    var cs := comps + [name];
    assert cs[..|cs|] == cs;
    forall k | 1 <= k <= |comps| ensures !Hit(cs[..k], true, exclude) {
      assert cs[..k] == comps[..k];
    }
  }

  /** Nothing below a hit directory survives. */
  lemma {:induction false} PrunedBelow(prefix: seq<string>, comps: seq<string>, n: Node, exclude: seq<string>)
    requires prefix != [] && prefix <= comps && Hit(prefix, true, exclude)
    ensures Keep(Flatten(comps, n), exclude) == []
    decreases n, 1
  {
    var cs := comps + [n.name];
    assert cs[..|prefix|] == prefix;
    assert !Survives(cs, n.Dir?, exclude);
    if n.Dir? {
      PrunedBelowAll(prefix, cs, n.children, exclude);
      KeepAppend([Item(cs, true, n.readable)], FlattenAll(cs, n.children), exclude);
      assert [Item(cs, true, n.readable)][1..] == [];
    }
  }

  lemma {:induction false} PrunedBelowAll(prefix: seq<string>, comps: seq<string>, ns: seq<Node>, exclude: seq<string>)
    requires prefix != [] && prefix <= comps && Hit(prefix, true, exclude)
    ensures Keep(FlattenAll(comps, ns), exclude) == []
    decreases ns, 0
  {
    if ns != [] {
      PrunedBelow(prefix, comps, ns[0], exclude);
      PrunedBelowAll(prefix, comps, ns[1..], exclude);
      KeepAppend(Flatten(comps, ns[0]), FlattenAll(comps, ns[1..]), exclude);
    }
  }

  /** The walk's outcome agrees with the filtered listing. */
  ghost predicate Matches(w: Walk, items: seq<Item>, exclude: seq<string>) {
    && (w.Done? <==> AllReadable(Keep(items, exclude)))
    && (w.Done? ==> w.entries == Entries(Keep(items, exclude)))
  }

  lemma MatchesAppend(v: Walk, w: Walk, a: seq<Item>, b: seq<Item>, exclude: seq<string>)
    requires Matches(v, a, exclude) && Matches(w, b, exclude)
    ensures Matches(if v.Done? && w.Done? then Done(v.entries + w.entries) else Aborted, a + b, exclude)
  {
    var ka, kb := Keep(a, exclude), Keep(b, exclude);
    KeepAppend(a, b, exclude);
    EntriesAppend(ka, kb);
    if AllReadable(ka + kb) {
      assert forall i :: 0 <= i < |ka| ==> (ka + kb)[i] == ka[i];
      assert forall i :: 0 <= i < |kb| ==> (ka + kb)[|ka| + i] == kb[i];
    }
  }

  lemma HitIsDropped(comps: seq<string>, n: Node, exclude: seq<string>)
    requires Hit(comps + [n.name], n.Dir?, exclude)
    ensures Keep(Flatten(comps, n), exclude) == []
  {
    var cs := comps + [n.name];
    var self := Item(cs, n.Dir?, n.File? || n.readable);
    assert cs[..|cs|] == cs && !Survives(cs, n.Dir?, exclude);
    assert [self][1..] == [];
    if n.Dir? {
      PrunedBelowAll(cs, cs, n.children, exclude);
      KeepAppend([self], FlattenAll(cs, n.children), exclude);
    }
  }

  lemma SelfIsKept(item: Item, exclude: seq<string>)
    requires Survives(item.comps, item.isDir, exclude)
    ensures Keep([item], exclude) == [item] && Entries([item]) == [Entry(Join(item.comps), item.isDir)]
  {
    assert [item][1..] == [];
  }

  lemma {:induction false} WalkNodeIsFilter(comps: seq<string>, n: Node, exclude: seq<string>)
    requires ValidPath(comps) && ValidTree(n) && Survives(comps, true, exclude)
    ensures Matches(WalkNode(Join(comps), n, exclude), Flatten(comps, n), exclude)
    decreases n, 1
  {
    var cs := comps + [n.name];
    JoinSnoc(comps, n.name);
    PrefixClauseAddsNothing(comps, n.name, n.Dir?, exclude);
    SurvivesChild(comps, n.name, n.Dir?, exclude);
    if Hit(cs, n.Dir?, exclude) {
      HitIsDropped(comps, n, exclude);
    } else {
      var self := Item(cs, n.Dir?, n.File? || n.readable);
      SelfIsKept(self, exclude);
      if n.Dir? {
        WalkAllIsFilter(cs, n.children, exclude);
        var first := if n.readable then Done([Entry(Join(cs), true)]) else Aborted;
        MatchesAppend(first, WalkAll(Join(cs), n.children, exclude), [self], FlattenAll(cs, n.children), exclude);
      }
    }
  }

  lemma {:induction false} WalkAllIsFilter(comps: seq<string>, ns: seq<Node>, exclude: seq<string>)
    requires ValidPath(comps) && (forall c :: c in ns ==> ValidTree(c)) && Survives(comps, true, exclude)
    ensures Matches(WalkAll(Join(comps), ns, exclude), FlattenAll(comps, ns), exclude)
    decreases ns, 0
  {
    if ns != [] {
      WalkNodeIsFilter(comps, ns[0], exclude);
      WalkAllIsFilter(comps, ns[1..], exclude);
      MatchesAppend(WalkNode(Join(comps), ns[0], exclude), WalkAll(Join(comps), ns[1..], exclude),
                    Flatten(comps, ns[0]), FlattenAll(comps, ns[1..]), exclude);
    }
  }

  /**
   The checkpoint's contents. The walk succeeds exactly when the root and every surviving directory can be read, and
   it then emits, in order, exactly the entries no part of whose path is skipped or excluded by path or bare name.
   */
  lemma WalkIsFilter(root: Node, exclude: seq<string>)
    requires root.Dir? && forall c :: c in root.children ==> ValidTree(c)
    ensures var kept := Keep(FlattenAll([], root.children), exclude);
            && (WalkCheckpoint(root, exclude).Done? <==> root.readable && AllReadable(kept))
            && (WalkCheckpoint(root, exclude).Done? ==> WalkCheckpoint(root, exclude).entries == Entries(kept))
  {
    WalkAllIsFilter([], root.children, exclude);
  }
}
