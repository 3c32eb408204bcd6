/** `filepath.Clean` and `filepath.Join` on Unix. */
module CleanPaths {
  import opened Paths

  function Split(s: string): (r: seq<string>)
    ensures r != []
  {
    if s == "" then [""]
    else
      var r := Split(s[1..]);
      if s[0] == '/' then [""] + r else [[s[0]] + r[0]] + r[1..]
  }

  function Push(stack: seq<string>, c: string, rooted: bool): seq<string> {
    if c == "" || c == "." then stack
    else if c != ".." then stack + [c]
    else if stack != [] && stack[|stack| - 1] != ".." then stack[..|stack| - 1]
    else if rooted then stack
    else stack + [".."]
  }

  function Reduce(stack: seq<string>, cs: seq<string>, rooted: bool): seq<string>
    decreases |cs|
  {
    if cs == [] then stack else Reduce(Push(stack, cs[0], rooted), cs[1..], rooted)
  }

  function Clean(p: string): string {
    if p == "" then "."
    else if p[0] == '/' then "/" + Join(Reduce([], Split(p[1..]), true))
    else
      var stack := Reduce([], Split(p), false);
      if stack == [] then "." else Join(stack)
  }

  /** `filepath.Join` of two elements. */
  function JoinPath(dir: string, name: string): string {
    if dir != "" then Clean(dir + "/" + name) else if name != "" then Clean(name) else ""
  }

  // ---------- Components ----------

  lemma {:induction false} SplitJoined(a: string, b: string)
    ensures Split(a + "/" + b) == Split(a) + Split(b)
  {
    if a == "" {
      assert (a + "/" + b)[1..] == b;
    } else {
      assert (a + "/" + b)[1..] == a[1..] + "/" + b;
      SplitJoined(a[1..], b);
    }
  }

  lemma {:induction false} SplitName(name: string)
    requires '/' !in name
    ensures Split(name) == [name]
  {
    if name != "" {
      SplitName(name[1..]);
      assert name == [name[0]] + name[1..];
    }
  }

  lemma {:induction false} SplitOfJoin(cs: seq<string>)
    requires ValidPath(cs) && cs != []
    ensures Split(Join(cs)) == cs
  {
    var n := |cs| - 1;
    SplitName(cs[n]);
    if n > 0 {
      SplitOfJoin(cs[..n]);
      SplitJoined(Join(cs[..n]), cs[n]);
    }
  }

  lemma {:induction false} ReduceConcat(stack: seq<string>, a: seq<string>, b: seq<string>, rooted: bool)
    ensures Reduce(stack, a + b, rooted) == Reduce(Reduce(stack, a, rooted), b, rooted)
    decreases |a|
  {
    if a == [] {
      assert a + b == b;
    } else {
      assert (a + b)[1..] == a[1..] + b;
      ReduceConcat(Push(stack, a[0], rooted), a[1..], b, rooted);
    }
  }

  /** A reduced relative path: proper names, after any number of "..". */
  ghost predicate Normal(stack: seq<string>) {
    && ValidPath(stack)
    && (forall i :: 0 <= i < |stack| ==> stack[i] != ".")
    && (forall i :: 0 < i < |stack| && stack[i] == ".." ==> stack[i - 1] == "..")
  }

  lemma {:induction false} SplitHasNoSlash(s: string)
    ensures forall c :: c in Split(s) ==> '/' !in c
  {
    if s != "" {
      SplitHasNoSlash(s[1..]);
      assert Split(s[1..])[0] in Split(s[1..]);
    }
  }

  lemma {:induction false} ReduceIsNormal(stack: seq<string>, cs: seq<string>)
    requires Normal(stack) && forall c :: c in cs ==> '/' !in c
    ensures Normal(Reduce(stack, cs, false))
    ensures stack != [] && stack[0] == ".." ==> Reduce(stack, cs, false) != [] && Reduce(stack, cs, false)[0] == ".."
    decreases |cs|
  {
    if cs != [] {
      assert cs[0] in cs;
      var pushed := Push(stack, cs[0], false);
      assert Normal(pushed) by {
        assert |pushed| > |stack| ==> pushed == stack + [cs[0]];
      }
      ReduceIsNormal(pushed, cs[1..]);
    }
  }

  lemma CleanIsNonEmpty(p: string)
    ensures Clean(p) != ""
  {
    if p != "" && p[0] != '/' {
      SplitHasNoSlash(p);
      ReduceIsNormal([], Split(p));
      var s := Reduce([], Split(p), false);
      JoinNonEmpty(s);
    }
  }

  // ---------- Cleaned paths stay as they are ----------

  lemma {:induction false} RootedIsNormal(stack: seq<string>, cs: seq<string>)
    requires Normal(stack) && ".." !in stack && forall c :: c in cs ==> '/' !in c
    ensures Normal(Reduce(stack, cs, true)) && ".." !in Reduce(stack, cs, true)
    decreases |cs|
  {
    if cs != [] {
      assert cs[0] in cs;
      var pushed := Push(stack, cs[0], true);
      assert Normal(pushed) && ".." !in pushed by {
        assert |pushed| > |stack| ==> pushed == stack + [cs[0]];
        assert stack != [] ==> stack[|stack| - 1] in stack;
      }
      RootedIsNormal(pushed, cs[1..]);
    }
  }

  lemma {:induction false} NormalIsReduced(stack: seq<string>, rooted: bool)
    requires Normal(stack) && (rooted ==> ".." !in stack)
    ensures Reduce([], stack, rooted) == stack
  {
    if stack != [] {
      var n := |stack| - 1;
      var init, last := stack[..n], stack[n];
      assert Normal(init);
      NormalIsReduced(init, rooted);
      assert stack == init + [last];
      ReduceConcat([], init, [last], rooted);
      assert last in stack && Push(init, last, rooted) == init + [last];
      assert Reduce(init, [last], rooted) == Reduce(Push(init, last, rooted), [], rooted);
    }
  }

  lemma ReducesToItself(stack: seq<string>, rooted: bool)
    requires Normal(stack) && (rooted ==> ".." !in stack)
    ensures Reduce([], Split(Join(stack)), rooted) == stack
  {
    if stack == [] {
      assert Split("") == [""] && Reduce([], [""], rooted) == Reduce([], [], rooted);
    } else {
      SplitOfJoin(stack);
      NormalIsReduced(stack, rooted);
    }
  }

  lemma JoinedIsRelative(stack: seq<string>)
    requires ValidPath(stack) && stack != []
    ensures Join(stack) != "" && Join(stack)[0] != '/'
  {
    JoinNonEmpty(stack);
    PrefixAtSlash(stack, "");
    forall k | 1 <= k < |stack| ensures Join(stack[..k]) != "" {
      JoinNonEmpty(stack[..k]);
    }
    assert !HasPrefix(Join(stack), "" + "/") && "" + "/" == "/";
  }

  /** Cleaning a clean path changes nothing. */
  lemma CleanIsIdempotent(p: string)
    ensures Clean(Clean(p)) == Clean(p)
  {
    var rooted := p != "" && p[0] == '/';
    var cs := Split(if rooted then p[1..] else p);
    var stack := Reduce([], cs, rooted);
    SplitHasNoSlash(if rooted then p[1..] else p);
    if rooted {
      RootedIsNormal([], cs);
      assert ("/" + Join(stack))[1..] == Join(stack);
      ReducesToItself(stack, true);
    } else if p == "" || stack == [] {
      SplitName(".");
      assert Reduce([], ["."], false) == Reduce([], [], false);
    } else {
      ReduceIsNormal([], cs);
      ReducesToItself(stack, false);
      JoinedIsRelative(stack);
    }
  }

  // ---------- Directory entries ----------

  /** A name a directory listing can report. */
  predicate IsEntryName(name: string) { ValidName(name) && name != "." && name != ".." }

  /** The path is that of an entry of the directory. */
  predicate IsEntry(dir: string, path: string) {
    IsEntryName(Base(path)) && JoinPath(dir, Base(path)) == path
  }

  lemma BaseOfChild(a: string, name: string)
    requires ValidName(name)
    ensures Base(a + "/" + name) == name && Base(name) == name
  {
    AfterLastSlashOf(a, name);
    assert name[|name| - 1] in name;
  }

  /** Components with an entry name last reduce to a stack with that name on top. */
  lemma ReduceEntry(cs: seq<string>, name: string, rooted: bool)
    requires IsEntryName(name) && forall c :: c in cs ==> '/' !in c
    ensures var stack := Reduce([], cs, rooted);
            Reduce([], cs + [name], rooted) == stack + [name] && ValidPath(stack + [name])
  {
    ReduceConcat([], cs, [name], rooted);
    var stack := Reduce([], cs, rooted);
    assert Reduce(stack, [name], rooted) == Reduce(Push(stack, name, rooted), [], rooted);
    if rooted {
      RootedIsNormal([], cs);
    } else {
      ReduceIsNormal([], cs);
    }
  }

  lemma JoinedChild(stack: seq<string>, name: string)
    requires ValidPath(stack + [name])
    ensures Base(Join(stack + [name])) == name && Base("/" + Join(stack + [name])) == name
  {
    assert (stack + [name])[|stack|] == name;
    assert ValidName(name);
    assert (stack + [name])[..|stack|] == stack;
    if stack == [] {
      assert Join(stack + [name]) == name;
      BaseOfChild("", name);
      assert "/" + name == "" + "/" + name;
    } else {
      BaseOfChild(Join(stack), name);
      BaseOfChild("/" + Join(stack), name);
      assert "/" + (Join(stack) + "/" + name) == "/" + Join(stack) + "/" + name;
    }
  }

  function FromStack(stack: seq<string>, rooted: bool): string {
    if rooted then "/" + Join(stack) else if stack == [] then "." else Join(stack)
  }

  predicate Rooted(p: string) { p != "" && p[0] == '/' }

  function Relative(p: string): string { if Rooted(p) then p[1..] else p }

  /** Joining is reducing the components of both. */
  lemma JoinReduces(dir: string, name: string)
    requires dir != ""
    ensures JoinPath(dir, name) == FromStack(Reduce([], Split(Relative(dir)) + Split(name), Rooted(dir)), Rooted(dir))
  {
    var p := dir + "/" + name;
    assert p[0] == dir[0];
    SplitJoined(Relative(dir), name);
    assert Relative(p) == Relative(dir) + "/" + name;
  }

  /** An entry's path ends in its name, so different names are different paths. */
  lemma EntryBase(dir: string, name: string)
    requires IsEntryName(name)
    ensures Base(JoinPath(dir, name)) == name && IsEntry(dir, JoinPath(dir, name))
  {
    SplitName(name);
    var cs := if dir == "" then [] else Split(Relative(dir));
    if dir == "" {
      assert [] + [name] == [name];
      assert name[0] in name;
    } else {
      JoinReduces(dir, name);
      SplitHasNoSlash(Relative(dir));
    }
    ReduceEntry(cs, name, Rooted(dir));
    JoinedChild(Reduce([], cs, Rooted(dir)), name);
  }

  lemma {:induction false} DotIsNothing(stack: seq<string>, a: seq<string>, b: seq<string>, rooted: bool)
    ensures Reduce(stack, a + (["."] + b), rooted) == Reduce(stack, a + b, rooted)
  {
    ReduceConcat(stack, a, ["."] + b, rooted);
    ReduceConcat(stack, a, b, rooted);
    assert (["."] + b)[1..] == b;
  }

  /** A leading "./" leads to the same entry. */
  lemma DotSlash(dir: string, name: string)
    requires IsEntryName(name)
    ensures JoinPath(dir, "./" + name) == JoinPath(dir, name)
  {
    assert "./" + name == "." + "/" + name;
    SplitJoined(".", name);
    SplitName(".");
    if dir == "" {
      assert [] + (["."] + Split(name)) == ["."] + Split(name) && [] + Split(name) == Split(name);
      DotIsNothing([], [], Split(name), false);
      assert name[0] in name;
    } else {
      JoinReduces(dir, "./" + name);
      JoinReduces(dir, name);
      DotIsNothing([], Split(Relative(dir)), Split(name), Rooted(dir));
    }
  }
}
