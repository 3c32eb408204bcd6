/**
 Project validation at load time: the merge of inline projects and fragments that gives every component unique names.
 */
module Config {
  import opened Sequences

  datatype ProjectConfig = ProjectConfig(name: string, path: string, settings: string)

  datatype Warning =
    | Structural(index: nat, name: string, emptyName: bool, emptyPath: bool)
    | Duplicate(name: string)
    | Fragment(text: string)

  /** unicode.IsSpace. */
  predicate IsSpace(c: char) {
    var u := c as int;
    9 <= u <= 13 || u in {0x20, 0x85, 0xA0, 0x1680, 0x2028, 0x2029, 0x202F, 0x205F, 0x3000} || 0x2000 <= u <= 0x200A
  }

  /** The 25 characters with the White_Space property of Unicode, one by one. */
  lemma SpacesAre(c: char)
    ensures IsSpace(c) <==> c as int in {
              0x0009, 0x000A, 0x000B, 0x000C, 0x000D, 0x0020, 0x0085, 0x00A0, 0x1680,
              0x2000, 0x2001, 0x2002, 0x2003, 0x2004, 0x2005, 0x2006, 0x2007, 0x2008, 0x2009, 0x200A,
              0x2028, 0x2029, 0x202F, 0x205F, 0x3000}
  {
  }

  function TrimSpace(s: string): string {
    if s == "" then ""
    else if IsSpace(s[0]) then TrimSpace(s[1..])
    else if IsSpace(s[|s| - 1]) then TrimSpace(s[..|s| - 1])
    else s
  }

  /** All white space, or empty. */
  predicate Blank(s: string) { forall i :: 0 <= i < |s| ==> IsSpace(s[i]) }

  /** Trimming leaves nothing exactly of blank strings. */
  lemma {:induction false} TrimsToNothing(s: string)
    ensures TrimSpace(s) == "" <==> Blank(s)
  {
    if s != "" {
      assert s == [s[0]] + s[1..] == s[..|s| - 1] + [s[|s| - 1]];
      if IsSpace(s[0]) {
        TrimsToNothing(s[1..]);
      } else if IsSpace(s[|s| - 1]) {
        TrimsToNothing(s[..|s| - 1]);
      }
    }
  }

  predicate Sound(p: ProjectConfig) { !Blank(p.name) && !Blank(p.path) }

  /** Entry `i` is kept: sound, and the first sound one of its name. */
  predicate KeptAt(ps: seq<ProjectConfig>, i: nat)
    requires i < |ps|
  {
    Sound(ps[i]) && forall j :: 0 <= j < i && Sound(ps[j]) ==> ps[j].name != ps[i].name
  }

  ghost function Kept(ps: seq<ProjectConfig>): seq<ProjectConfig> {
    if ps == [] then []
    else Kept(ps[..|ps| - 1]) + if KeptAt(ps, |ps| - 1) then [ps[|ps| - 1]] else []
  }

  /** Why entry `i` is dropped: blank fields, or else a repeated name. */
  function Complaint(ps: seq<ProjectConfig>, i: nat): Warning
    requires i < |ps|
  {
    if Sound(ps[i]) then Duplicate(ps[i].name)
    else Structural(i, ps[i].name, Blank(ps[i].name), Blank(ps[i].path))
  }

  ghost function Complaints(ps: seq<ProjectConfig>): seq<Warning> {
    if ps == [] then []
    else Complaints(ps[..|ps| - 1]) + if KeptAt(ps, |ps| - 1) then [] else [Complaint(ps, |ps| - 1)]
  }

  ghost predicate SeenBefore(ps: seq<ProjectConfig>, i: nat, n: string) {
    exists j :: 0 <= j < i && j < |ps| && Sound(ps[j]) && ps[j].name == n
  }

  /** The state of the loop after `i` entries: names seen, entries kept and warnings added. */
  ghost predicate ValidatedUpTo(ps: seq<ProjectConfig>, i: nat, seen: set<string>, valid: seq<ProjectConfig>,
                                added: seq<Warning>)
  {
    && i <= |ps| && |valid| + |added| == i
    && (forall n :: n in seen <==> SeenBefore(ps, i, n))
    && valid == Kept(ps[..i]) && added == Complaints(ps[..i])
  }

  lemma SeenNext(ps: seq<ProjectConfig>, i: nat, n: string)
    requires i < |ps|
    ensures SeenBefore(ps, i + 1, n) <==> SeenBefore(ps, i, n) || (Sound(ps[i]) && ps[i].name == n)
    ensures KeptAt(ps[..i + 1], i) <==> Sound(ps[i]) && !SeenBefore(ps, i, ps[i].name)
  {
    if SeenBefore(ps, i, n) {
      var j :| 0 <= j < i && j < |ps| && Sound(ps[j]) && ps[j].name == n;
      assert 0 <= j < i + 1;
    }
    var head := ps[..i + 1];
    assert forall j :: 0 <= j <= i ==> head[j] == ps[j];
  }

  lemma KeepEntry(ps: seq<ProjectConfig>, i: nat, seen: set<string>, valid: seq<ProjectConfig>, added: seq<Warning>)
    requires i < |ps| && ValidatedUpTo(ps, i, seen, valid, added) && Sound(ps[i]) && ps[i].name !in seen
    ensures ValidatedUpTo(ps, i + 1, seen + {ps[i].name}, valid + [ps[i]], added)
  {
    forall n ensures SeenBefore(ps, i + 1, n) <==> n in seen + {ps[i].name} {
      SeenNext(ps, i, n);
    }
    SeenNext(ps, i, ps[i].name);
    assert ps[..i + 1][..i] == ps[..i];
  }

  lemma DropEntry(ps: seq<ProjectConfig>, i: nat, seen: set<string>, valid: seq<ProjectConfig>, added: seq<Warning>)
    requires i < |ps| && ValidatedUpTo(ps, i, seen, valid, added) && (!Sound(ps[i]) || ps[i].name in seen)
    ensures ValidatedUpTo(ps, i + 1, seen, valid, added + [Complaint(ps, i)])
  {
    forall n ensures SeenBefore(ps, i + 1, n) <==> n in seen {
      SeenNext(ps, i, n);
    }
    SeenNext(ps, i, ps[i].name);
    assert ps[..i + 1][..i] == ps[..i];
  }

  /** Kept entries and complaints add up to the input. */
  lemma {:induction false} NothingVanishes(ps: seq<ProjectConfig>)
    ensures |Kept(ps)| + |Complaints(ps)| == |ps|
  {
    if ps != [] {
      NothingVanishes(ps[..|ps| - 1]);
    }
  }

  /** Every dropped entry is reported: as malformed with its position and what is blank, else as a duplicate. */
  lemma {:induction false} DroppedIsReported(ps: seq<ProjectConfig>, i: nat)
    requires i < |ps| && !KeptAt(ps, i)
    ensures (if Blank(ps[i].name) || Blank(ps[i].path)
             then Structural(i, ps[i].name, Blank(ps[i].name), Blank(ps[i].path))
             else Duplicate(ps[i].name)) in Complaints(ps)
  {
    var n := |ps| - 1;
    if i < n {
      var init := ps[..n];
      assert init[i] == ps[i] && forall j :: 0 <= j < i ==> init[j] == ps[j];
      DroppedIsReported(init, i);
    }
  }

  class DelightConfig {
    var projects: seq<ProjectConfig>
    var degraded: bool
    var loadWarnings: seq<Warning>

    constructor (projects: seq<ProjectConfig>)
      ensures this.projects == projects && !degraded && loadWarnings == []
    {
      this.projects := projects;
      degraded := false;
      loadWarnings := [];
    }

    method MarkDegraded(w: Warning)
      modifies this`degraded, this`loadWarnings
      ensures degraded && loadWarnings == old(loadWarnings) + [w]
    {
      degraded := true;
      loadWarnings := loadWarnings + [w];
    }

    /** Every entry is either kept or accounted for by one warning. */
    method ValidateProjects() returns (valid: seq<ProjectConfig>)
      modifies this`degraded, this`loadWarnings
      ensures valid == Kept(projects)
      ensures loadWarnings == old(loadWarnings) + Complaints(projects)
      ensures degraded <==> old(degraded) || |valid| < |projects|
    {
      var ps := projects;
      var seen: set<string> := {};
      valid := [];
      ghost var added := [];
      for i := 0 to |ps|
        invariant ValidatedUpTo(ps, i, seen, valid, added)
        invariant loadWarnings == old(loadWarnings) + added
        invariant degraded <==> old(degraded) || added != []
      {
        var p := ps[i];
        TrimsToNothing(p.name);
        TrimsToNothing(p.path);
        var emptyName, emptyPath := TrimSpace(p.name) == "", TrimSpace(p.path) == "";
        if emptyName || emptyPath {
          DropEntry(ps, i, seen, valid, added);
          Regroup(old(loadWarnings), added, [Complaint(ps, i)]);
          added := added + [Complaint(ps, i)];
          MarkDegraded(Structural(i, p.name, emptyName, emptyPath));
          continue;
        }
        if p.name in seen {
          DropEntry(ps, i, seen, valid, added);
          Regroup(old(loadWarnings), added, [Complaint(ps, i)]);
          added := added + [Complaint(ps, i)];
          MarkDegraded(Duplicate(p.name));
          continue;
        }
        KeepEntry(ps, i, seen, valid, added);
        seen := seen + {p.name};
        valid := valid + [p];
      }
      assert ps[..|ps|] == ps;
    }

    /**
     The end of Load: fragments are appended after the inline list, their warnings recorded, and the whole is
     validated.
     */
    method MergeFragments(fragments: seq<ProjectConfig>, warnings: seq<string>)
      modifies this
      ensures projects == Kept(old(projects) + fragments)
      ensures loadWarnings == old(loadWarnings) + FragmentWarnings(warnings) + Complaints(old(projects) + fragments)
      ensures degraded <==> old(degraded) || warnings != [] || |projects| < |old(projects) + fragments|
    {
      projects := projects + fragments;
      for i := 0 to |warnings|
        invariant projects == old(projects) + fragments
        invariant loadWarnings == old(loadWarnings) + FragmentWarnings(warnings)[..i]
        invariant degraded <==> old(degraded) || i > 0
      {
        MarkDegraded(Fragment(warnings[i]));
      }
      var valid := ValidateProjects();
      projects := valid;
    }
  }

  function FragmentWarnings(warnings: seq<string>): seq<Warning> {
    seq(|warnings|, i requires 0 <= i < |warnings| => Fragment(warnings[i]))
  }

  // ---------- What validation gives every consumer ----------

  ghost predicate UniqueNames(ps: seq<ProjectConfig>) {
    forall i, j :: 0 <= i < j < |ps| ==> ps[i].name != ps[j].name
  }

  /** Where the kept entries stood in the input: strictly increasing, kept, and nothing kept is missed. */
  ghost predicate Picks(ps: seq<ProjectConfig>, at: seq<nat>, kept: seq<ProjectConfig>) {
    && |at| == |kept|
    && (forall k :: 0 <= k < |at| ==> at[k] < |ps| && KeptAt(ps, at[k]) && kept[k] == ps[at[k]])
    && (forall k, l :: 0 <= k < l < |at| ==> at[k] < at[l])
    && (forall i: nat :: i < |ps| && KeptAt(ps, i) ==> i in at)
  }

  /** The result is an order-preserving selection of exactly the first sound entry of each name. */
  lemma {:induction false} KeptIsSelection(ps: seq<ProjectConfig>) returns (at: seq<nat>)
    ensures Picks(ps, at, Kept(ps))
  {
    if ps == [] {
      at := [];
    } else {
      var n := |ps| - 1;
      at := KeptIsSelection(ps[..n]);
      PicksOneMore(ps, at, Kept(ps[..n]));
      at := at + if KeptAt(ps, n) then [n] else [];
    }
  }

  lemma PicksOneMore(ps: seq<ProjectConfig>, at: seq<nat>, kept: seq<ProjectConfig>)
    requires ps != [] && Picks(ps[..|ps| - 1], at, kept)
    ensures var n := |ps| - 1;
            Picks(ps, at + if KeptAt(ps, n) then [n] else [], kept + if KeptAt(ps, n) then [ps[n]] else [])
  {
    var n := |ps| - 1;
    var init := ps[..n];
    forall i: nat | i < n ensures KeptAt(init, i) <==> KeptAt(ps, i) {
      assert init[i] == ps[i];
      assert forall j :: 0 <= j < i ==> init[j] == ps[j];
    }
    var at' := at + if KeptAt(ps, n) then [n] else [];
    forall i: nat | i < |ps| && KeptAt(ps, i) ensures i in at' {
      if i < n {
        assert KeptAt(init, i);
      }
    }
  }

  /** Names are unique, and neither names nor paths are blank. */
  lemma KeptIsUniqueAndSound(ps: seq<ProjectConfig>)
    ensures UniqueNames(Kept(ps)) && forall p :: p in Kept(ps) ==> !Blank(p.name) && !Blank(p.path)
    ensures |Kept(ps)| <= |ps|
  {
    var at := KeptIsSelection(ps);
    PicksAreUnique(ps, at, Kept(ps));
    KeptIsShort(ps);
  }

  lemma {:induction false} KeptIsShort(ps: seq<ProjectConfig>)
    ensures |Kept(ps)| <= |ps|
  {
    if ps != [] {
      KeptIsShort(ps[..|ps| - 1]);
    }
  }

  lemma PicksAreUnique(ps: seq<ProjectConfig>, at: seq<nat>, kept: seq<ProjectConfig>)
    requires Picks(ps, at, kept)
    ensures UniqueNames(kept)
  {
    forall k, l | 0 <= k < l < |kept| ensures kept[k].name != kept[l].name {
      assert KeptAt(ps, at[l]) && at[k] < at[l] && Sound(ps[at[k]]);
    }
  }

  lemma KeptStep(ps: seq<ProjectConfig>, n: nat)
    requires n < |ps| && KeptAt(ps, n)
    ensures Kept(ps[..n + 1]) == Kept(ps[..n]) + [ps[n]]
  {
    var head := ps[..n + 1];
    assert head[..n] == ps[..n] && head[n] == ps[n];
    assert forall j :: 0 <= j < n ==> head[j] == ps[j];
  }

  lemma {:induction false} AllKept(ps: seq<ProjectConfig>, n: nat)
    requires n <= |ps| && forall i :: 0 <= i < n ==> KeptAt(ps, i)
    ensures Kept(ps[..n]) == ps[..n]
  {
    if n > 0 {
      AllKept(ps, n - 1);
      KeptStep(ps, n - 1);
      assert ps[..n] == ps[..n - 1] + [ps[n - 1]];
    }
  }

  lemma UniqueSoundIsKept(ps: seq<ProjectConfig>)
    requires UniqueNames(ps) && forall i :: 0 <= i < |ps| ==> Sound(ps[i])
    ensures Kept(ps) == ps
  {
    forall i | 0 <= i < |ps| ensures KeptAt(ps, i) {
      EntryIsKept(ps, i);
    }
    AllKept(ps, |ps|);
    assert ps[..|ps|] == ps;
  }

  lemma EntryIsKept(ps: seq<ProjectConfig>, i: nat)
    requires i < |ps| && UniqueNames(ps) && Sound(ps[i])
    ensures KeptAt(ps, i)
  {
  }

  /** Validating again changes nothing. */
  lemma ValidationIsIdempotent(ps: seq<ProjectConfig>)
    ensures Kept(Kept(ps)) == Kept(ps)
  {
    KeptIsUniqueAndSound(ps);
    UniqueSoundIsKept(Kept(ps));
  }

  /** Every sound entry's name survives, in the entry that had it first. */
  lemma FirstOccurrenceWins(ps: seq<ProjectConfig>, i: nat) returns (first: nat)
    requires i < |ps| && !Blank(ps[i].name) && !Blank(ps[i].path)
    ensures first <= i && ps[first].name == ps[i].name && KeptAt(ps, first) && ps[first] in Kept(ps)
  {
    first := i;
    while exists j :: 0 <= j < first && Sound(ps[j]) && ps[j].name == ps[i].name
      invariant 0 <= first <= i && Sound(ps[first]) && ps[first].name == ps[i].name
      decreases first
    {
      var j :| 0 <= j < first && Sound(ps[j]) && ps[j].name == ps[i].name;
      first := j;
    }
    assert KeptAt(ps, first);
    var at := KeptIsSelection(ps);
    assert first in at;
    var k :| 0 <= k < |at| && at[k] == first;
    assert Kept(ps)[k] == ps[first];
  }

  /** An inline project beats every fragment of the same name. */
  lemma InlineBeatsFragments(inline: seq<ProjectConfig>, fragments: seq<ProjectConfig>, i: nat, p: ProjectConfig)
    requires i < |inline| && !Blank(inline[i].name) && !Blank(inline[i].path)
    requires p in Kept(inline + fragments) && p.name == inline[i].name
    ensures p in inline
  {
    var all := inline + fragments;
    assert all[i] == inline[i];
    var first := FirstOccurrenceWins(all, i);
    KeptIsUniqueAndSound(all);
    assert all[first] == p;
    assert all[first] == inline[first];
  }
}
