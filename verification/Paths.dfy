/** Slash-separated paths, as path/filepath sees them on Unix. */
module Paths {

  /** A directory entry's name: non-empty and without a separator. */
  predicate ValidName(name: string) { name != "" && '/' !in name }

  predicate ValidPath(cs: seq<string>) { forall i :: 0 <= i < |cs| ==> ValidName(cs[i]) }

  function Join(cs: seq<string>): string {
    if cs == [] then ""
    else if |cs| == 1 then cs[0]
    else Join(cs[..|cs| - 1]) + "/" + cs[|cs| - 1]
  }

  /** The child of a directory, where "" is the root of the walk. */
  function Child(dir: string, name: string): string {
    if dir == "" then name else dir + "/" + name
  }

  function TrimLeft(s: string): string {
    if s != "" && s[0] == '/' then TrimLeft(s[1..]) else s
  }

  function TrimRight(s: string): string {
    if s != "" && s[|s| - 1] == '/' then TrimRight(s[..|s| - 1]) else s
  }

  /** `strings.Trim(s, "/")`. */
  function Trim(s: string): string { TrimRight(TrimLeft(s)) }

  function AfterLastSlash(s: string): string {
    if s == "" || s[|s| - 1] == '/' then "" else AfterLastSlash(s[..|s| - 1]) + [s[|s| - 1]]
  }

  /** `filepath.Base`. */
  function Base(s: string): string {
    if s == "" then "."
    else if TrimRight(s) == "" then "/"
    else AfterLastSlash(TrimRight(s))
  }

  /** `filepath.Ext`: from the last dot of the last element, or "". */
  function Ext(s: string): string {
    if s == "" || s[|s| - 1] == '/' then ""
    else if s[|s| - 1] == '.' then "."
    else
      var e := Ext(s[..|s| - 1]);
      if e == "" then "" else e + [s[|s| - 1]]
  }

  /** `strings.HasPrefix`. */
  predicate HasPrefix(s: string, p: string) { p <= s }

  /** `strings.HasSuffix`. */
  predicate HasSuffix(s: string, suffix: string) {
    |suffix| <= |s| && s[|s| - |suffix|..] == suffix
  }

  lemma HasSuffixWhen(s: string, suffix: string)
    ensures HasSuffix(s, suffix) <==> exists stem :: s == stem + suffix
  {
    if HasSuffix(s, suffix) {
      assert s == s[..|s| - |suffix|] + suffix;
    }
  }

  predicate AllSlashes(s: string) { forall i :: 0 <= i < |s| ==> s[i] == '/' }

  /** Whatever slashes surround it, trimming leaves exactly the core without a slash at either end. */
  lemma {:induction false} TrimLeavesCore(before: string, core: string, after: string)
    requires AllSlashes(before) && AllSlashes(after)
    requires core != "" ==> core[0] != '/' && core[|core| - 1] != '/'
    ensures Trim(before + core + after) == core
    decreases |before|
  {
    var s := before + core + after;
    if before != "" {
      assert s[1..] == before[1..] + core + after;
      TrimLeavesCore(before[1..], core, after);
    } else if core == "" {
      assert s == after;
      SlashesTrimToNothing(after);
    } else {
      assert s == core + after && s[0] == core[0];
      TrimRightLeaves(core, after);
    }
  }

  lemma {:induction false} SlashesTrimToNothing(s: string)
    requires AllSlashes(s)
    ensures TrimLeft(s) == "" && Trim(s) == ""
  {
    if s != "" {
      SlashesTrimToNothing(s[1..]);
    }
  }

  lemma {:induction false} TrimRightLeaves(core: string, after: string)
    requires AllSlashes(after) && core != "" && core[|core| - 1] != '/'
    ensures TrimRight(core + after) == core
  {
    if after == "" {
      assert core + after == core;
    } else {
      assert (core + after)[..|core + after| - 1] == core + after[..|after| - 1];
      TrimRightLeaves(core, after[..|after| - 1]);
    }
  }

  /** The extension is what a name ends in: a dot and letters without another dot. */
  lemma {:induction false} ExtIsSuffix(name: string, letters: string)
    requires ValidName(name) && '.' !in letters
    ensures Ext(name) == "." + letters <==> HasSuffix(name, "." + letters)
  {
    var n := |name| - 1;
    assert name[n] in name;
    var init := name[..n];
    if letters == "" {
      assert "." + letters == ".";
      assert name[|name| - 1..] == [name[n]];
    } else {
      var m := |letters| - 1;
      var e, e' := "." + letters, "." + letters[..m];
      assert e == e' + [letters[m]] && letters[m] in letters;
      if name[n] != '.' && init != "" {
        assert ValidName(init);
        ExtIsSuffix(init, letters[..m]);
        SameSnoc(Ext(init), name[n], e', letters[m]);
        SuffixSnoc(init, name[n], e', letters[m]);
        assert name == init + [name[n]];
      }
    }
  }

  lemma SuffixSnoc(s: string, c: char, suffix: string, d: char)
    ensures HasSuffix(s + [c], suffix + [d]) <==> HasSuffix(s, suffix) && c == d
  {
    var t, x := s + [c], suffix + [d];
    if |suffix| <= |s| {
      assert t[|t| - |x|..] == s[|s| - |suffix|..] + [c];
      SameSnoc(s[|s| - |suffix|..], c, suffix, d);
    }
  }

  lemma SameSnoc(a: string, c: char, b: string, d: char)
    ensures a + [c] == b + [d] <==> a == b && c == d
  {
    if a + [c] == b + [d] {
      assert (a + [c])[|a|] == c && (b + [d])[|b|] == d;
      assert (a + [c])[..|a|] == a && (b + [d])[..|b|] == b;
    }
  }

  lemma {:induction false} AfterLastSlashOf(a: string, name: string)
    requires '/' !in name
    ensures AfterLastSlash(a + "/" + name) == name
    ensures AfterLastSlash(name) == name
  {
    if name != "" {
      var init, c := name[..|name| - 1], name[|name| - 1];
      AfterLastSlashOf(a, init);
      assert (a + "/" + name)[..|a + "/" + name| - 1] == a + "/" + init;
      assert c in name;
    }
  }

  lemma JoinSnoc(cs: seq<string>, name: string)
    requires ValidPath(cs)
    ensures Join(cs + [name]) == Child(Join(cs), name)
  {
    assert (cs + [name])[..|cs|] == cs;
    JoinNonEmpty(cs);
  }

  lemma {:induction false} JoinNonEmpty(cs: seq<string>)
    requires ValidPath(cs)
    ensures Join(cs) == "" <==> cs == []
    ensures cs != [] ==> Join(cs)[|Join(cs)| - 1] != '/'
  {
    if cs != [] {
      var last := cs[|cs| - 1];
      assert ValidName(last) && last[|last| - 1] in last;
    }
  }

  lemma BaseOfJoin(cs: seq<string>)
    requires ValidPath(cs) && cs != []
    ensures Base(Join(cs)) == cs[|cs| - 1]
  {
    JoinNonEmpty(cs);
    AfterLastSlashOf(Join(cs[..|cs| - 1]), cs[|cs| - 1]);
  }

  lemma NoSlashPrefix(name: string, e: string)
    requires ValidName(name)
    ensures !HasPrefix(name, e + "/")
  {
    assert (e + "/")[|e|] == '/';
    if |e| < |name| {
      assert name[|e|] in name;
    }
  }

  /** A prefix of `a/last` that stops at a separator is `a`, or such a prefix of `a`. */
  lemma PrefixOfChild(a: string, last: string, e: string)
    requires ValidName(last)
    ensures HasPrefix(a + "/" + last, e + "/") <==> e == a || HasPrefix(a, e + "/")
  {
    var s, p := a + "/" + last, e + "/";
    assert p[|e|] == '/';
    if |e| < |a| {
      assert s[..|p|] == a[..|p|];
    } else if |e| == |a| {
      assert s[..|p|] == a + "/";
      assert p[..|e|] == e && (a + "/")[..|e|] == a;
    } else if |e| < |s| {
      assert s[|e|] == last[|e| - |a| - 1] && last[|e| - |a| - 1] in last;
    }
  }

  ghost predicate IsAncestorPath(cs: seq<string>, e: string) {
    exists k :: 1 <= k < |cs| && Join(cs[..k]) == e
  }

  lemma AncestorOfChild(cs: seq<string>, e: string)
    requires |cs| >= 2
    ensures IsAncestorPath(cs, e) <==> e == Join(cs[..|cs| - 1]) || IsAncestorPath(cs[..|cs| - 1], e)
  {
    var init := cs[..|cs| - 1];
    if IsAncestorPath(cs, e) {
      var k :| 1 <= k < |cs| && Join(cs[..k]) == e;
      assert k < |init| ==> cs[..k] == init[..k];
    }
    if IsAncestorPath(init, e) {
      var k :| 1 <= k < |init| && Join(init[..k]) == e;
      assert cs[..k] == init[..k];
    }
  }

  /** String prefixes that stop at a separator are exactly the joins of component prefixes. */
  lemma {:induction false} PrefixAtSlash(cs: seq<string>, e: string)
    requires ValidPath(cs)
    ensures HasPrefix(Join(cs), e + "/") <==> IsAncestorPath(cs, e)
  {
    if |cs| == 1 {
      NoSlashPrefix(cs[0], e);
    } else if |cs| >= 2 {
      var init := cs[..|cs| - 1];
      PrefixAtSlash(init, e);
      PrefixOfChild(Join(init), cs[|cs| - 1], e);
      AncestorOfChild(cs, e);
    }
  }
}
