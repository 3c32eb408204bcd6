/**
 Archive names and rotation: at most the configured number of newest checkpoints stay in a project's archive directory.
 */
module Rotation {
  import opened Ordering
  import opened Paths
  import opened Sequences

  // ---------- Archive names ----------

  /** A local wall-clock reading, with a four-digit year. */
  datatype Stamp = Stamp(year: nat, month: nat, day: nat, hour: nat, minute: nat, second: nat)

  predicate ValidStamp(t: Stamp) {
    t.year < 10000 && t.month < 100 && t.day < 100 && t.hour < 100 && t.minute < 100 && t.second < 100
  }

  predicate Earlier(s: Stamp, t: Stamp) {
    || s.year < t.year
    || (s.year == t.year && (s.month < t.month
    || (s.month == t.month && (s.day < t.day
    || (s.day == t.day && (s.hour < t.hour
    || (s.hour == t.hour && (s.minute < t.minute
    || (s.minute == t.minute && s.second < t.second)))))))))
  }

  function Digits(n: nat, width: nat): string {
    if width == 0 then "" else Digits(n / 10, width - 1) + ['0' + (n % 10) as char]
  }

  /** Go's layout 20060102-150405. */
  function Format(t: Stamp): string {
    Digits(t.year, 4) + (Digits(t.month, 2) + (Digits(t.day, 2) + ("-" +
    (Digits(t.hour, 2) + (Digits(t.minute, 2) + Digits(t.second, 2))))))
  }

  function ArchiveName(project: string, t: Stamp): string {
    project + "-" + (Format(t) + ".tgz")
  }

  function Pow10(w: nat): nat { if w == 0 then 1 else 10 * Pow10(w - 1) }

  /** Equal-width decimals order strings as they order numbers. */
  lemma {:induction false} DigitsOrder(a: nat, b: nat, width: nat, x: string, y: string)
    requires a < Pow10(width) && b < Pow10(width)
    ensures Less(Digits(a, width) + x, Digits(b, width) + y) <==> a < b || (a == b && Less(x, y))
  {
    if width == 0 {
      assert Digits(a, 0) + x == x && Digits(b, 0) + y == y;
    } else {
      var c, d := '0' + (a % 10) as char, '0' + (b % 10) as char;
      assert Digits(a, width) + x == Digits(a / 10, width - 1) + ([c] + x);
      assert Digits(b, width) + y == Digits(b / 10, width - 1) + ([d] + y);
      DigitsOrder(a / 10, b / 10, width - 1, [c] + x, [d] + y);
      assert ([c] + x)[1..] == x && ([d] + y)[1..] == y;
    }
  }

  /** Archive names of one project sort exactly in time order. */
  lemma NamesSortInTimeOrder(project: string, s: Stamp, t: Stamp)
    requires ValidStamp(s) && ValidStamp(t)
    ensures Less(ArchiveName(project, s), ArchiveName(project, t)) <==> Earlier(s, t)
  {
    var e := ".tgz";
    LessAfterPrefix(project + "-", Format(s) + e, Format(t) + e);
    FormatOrder(s, t, e);
  }

  lemma FormatOrder(s: Stamp, t: Stamp, e: string)
    requires ValidStamp(s) && ValidStamp(t)
    ensures Less(Format(s) + e, Format(t) + e) <==> Earlier(s, t)
  {
    assert Pow10(2) == 100;
    assert Pow10(4) == 10000 by { assert Pow10(3) == 1000; }
    var s5, t5 := Digits(s.second, 2) + e, Digits(t.second, 2) + e;
    var s4, t4 := Digits(s.minute, 2) + s5, Digits(t.minute, 2) + t5;
    var s3, t3 := Digits(s.hour, 2) + s4, Digits(t.hour, 2) + t4;
    var s2, t2 := Digits(s.day, 2) + ("-" + s3), Digits(t.day, 2) + ("-" + t3);
    var s1, t1 := Digits(s.month, 2) + s2, Digits(t.month, 2) + t2;
    FormatNests(s, e);
    FormatNests(t, e);
    DigitsOrder(s.second, t.second, 2, e, e);
    LessIrreflexive(e);
    DigitsOrder(s.minute, t.minute, 2, s5, t5);
    DigitsOrder(s.hour, t.hour, 2, s4, t4);
    LessAfterPrefix("-", s3, t3);
    DigitsOrder(s.day, t.day, 2, "-" + s3, "-" + t3);
    DigitsOrder(s.month, t.month, 2, s2, t2);
    DigitsOrder(s.year, t.year, 4, s1, t1);
  }

  lemma FormatNests(t: Stamp, e: string)
    ensures Format(t) + e == Digits(t.year, 4) + (Digits(t.month, 2) + (Digits(t.day, 2) + ("-" +
      (Digits(t.hour, 2) + (Digits(t.minute, 2) + (Digits(t.second, 2) + e))))))
  {
    Regroup(Digits(t.minute, 2), Digits(t.second, 2), e);
    Regroup(Digits(t.hour, 2), Digits(t.minute, 2) + Digits(t.second, 2), e);
    var tail := Digits(t.hour, 2) + (Digits(t.minute, 2) + Digits(t.second, 2));
    Regroup("-", tail, e);
    Regroup(Digits(t.day, 2), "-" + tail, e);
    Regroup(Digits(t.month, 2), Digits(t.day, 2) + ("-" + tail), e);
    Regroup(Digits(t.year, 4), Digits(t.month, 2) + (Digits(t.day, 2) + ("-" + tail)), e);
  }

  function Digit(n: nat): char { '0' + (n % 10) as char }

  lemma TwoDigits(n: nat)
    ensures Digits(n, 2) == [Digit(n / 10), Digit(n)]
  {
    assert Digits(n / 10, 1) == Digits(n / 10 / 10, 0) + [Digit(n / 10)];
  }

  lemma FourDigits(n: nat)
    ensures Digits(n, 4) == [Digit(n / 1000), Digit(n / 100), Digit(n / 10), Digit(n)]
  {
    TwoDigits(n / 100);
    assert n / 100 / 10 == n / 1000 && n / 10 / 10 == n / 100;
    assert Digits(n, 4) == Digits(n / 10 / 10, 2) + [Digit(n / 10)] + [Digit(n)];
  }

  /** What a name looks like: the project, then year, month and day, then hour, minute and second. */
  lemma NameLayout(project: string, t: Stamp)
    ensures ArchiveName(project, t) == project + "-" +
            [Digit(t.year / 1000), Digit(t.year / 100), Digit(t.year / 10), Digit(t.year),
             Digit(t.month / 10), Digit(t.month), Digit(t.day / 10), Digit(t.day), '-',
             Digit(t.hour / 10), Digit(t.hour), Digit(t.minute / 10), Digit(t.minute),
             Digit(t.second / 10), Digit(t.second)] + ".tgz"
  {
    FourDigits(t.year);
    TwoDigits(t.month);
    TwoDigits(t.day);
    TwoDigits(t.hour);
    TwoDigits(t.minute);
    TwoDigits(t.second);
  }

  // ---------- Newest names ----------

  ghost predicate Ascending(names: seq<string>) {
    forall i, j :: 0 <= i < j < |names| ==> Less(names[i], names[j])
  }

  ghost function Above(s: set<string>, name: string): set<string> { set b | b in s && Less(name, b) }

  /** The names of a set with fewer than `limit` others sorting after them. */
  ghost function Newest(s: set<string>, limit: nat): set<string> { set n | n in s && |Above(s, n)| < limit }

  lemma {:induction false} Least(s: set<string>) returns (least: string)
    requires s != {}
    ensures least in s && forall n :: n in s && n != least ==> Less(least, n)
    decreases |s|
  {
    var n :| n in s;
    least := n;
    if s != {n} {
      least := Least(s - {n});
      LessTotal(least, n);
      if Less(n, least) {
        forall m | m in s && m != n ensures Less(n, m) {
          if m != least {
            LessTrans(n, least, m);
          }
        }
        least := n;
      }
    }
  }

  /** There are min(|s|, limit) of them. */
  lemma {:induction false} NewestSize(s: set<string>, limit: nat)
    ensures |Newest(s, limit)| == if |s| < limit then |s| else limit
    decreases |s|
  {
    if |s| <= limit {
      forall n | n in s ensures |Above(s, n)| < |s| {
        LessIrreflexive(n);
        SubsetSize(Above(s, n), s - {n});
      }
      assert Newest(s, limit) == s;
    } else {
      var least := Least(s);
      var rest := s - {least};
      NewestSize(rest, limit);
      assert Above(s, least) == rest by {
        LessIrreflexive(least);
      }
      forall n | n in rest ensures Above(s, n) == Above(rest, n) {
        LessAsymmetric(least, n);
      }
      assert Newest(s, limit) == Newest(rest, limit);
    }
  }

  /** A name outside the newest has the newest of the names after it, all of them newest, after it. */
  lemma CrowdedOut(s: set<string>, m: string, limit: nat)
    requires m in s && |Above(s, m)| >= limit
    ensures |Newest(s, limit) * Above(s, m)| >= limit
  {
    var after := Above(s, m);
    NewestSize(after, limit);
    forall n | n in after ensures Above(after, n) == Above(s, n) {
      forall b | b in s && Less(n, b) ensures Less(m, b) {
        LessTrans(m, n, b);
      }
    }
    SubsetSize(Newest(after, limit), Newest(s, limit) * after);
  }

  /** Between the newest and all, nothing is lost for what the newest will be once more names are added. */
  lemma NewestOfMore(all: set<string>, some: set<string>, more: set<string>, limit: nat)
    requires Newest(all, limit) <= some <= all
    ensures Newest(some + more, limit) == Newest(all + more, limit)
  {
    forall n ensures n in Newest(some + more, limit) <==> n in Newest(all + more, limit) {
      SubsetSize(Above(some + more, n), Above(all + more, n));
      SubsetSize(Above(all, n), Above(all + more, n));
      if n in some + more && n !in Newest(all + more, limit) {
        CrowdStays(all, some, more, limit, n);
      }
    }
  }

  lemma CrowdStays(all: set<string>, some: set<string>, more: set<string>, limit: nat, n: string)
    requires Newest(all, limit) <= some <= all && |Above(all + more, n)| >= limit
    ensures |Above(some + more, n)| >= limit
  {
    if m :| m in Above(all, n) && m !in some {
      assert m !in Newest(all, limit);
      CrowdedOut(all, m, limit);
      forall b | b in Newest(all, limit) * Above(all, m) ensures b in Above(some + more, n) {
        LessTrans(n, m, b);
      }
      SubsetSize(Newest(all, limit) * Above(all, m), Above(some + more, n));
    } else {
      assert Above(some + more, n) == Above(all + more, n);
    }
  }

  lemma {:induction false} AscendingSize(names: seq<string>)
    requires Ascending(names)
    ensures |Elements(names)| == |names|
  {
    if names != [] {
      var init, last := names[..|names| - 1], names[|names| - 1];
      AscendingSize(init);
      LessIrreflexive(last);
      assert Elements(names) == Elements(init) + {last};
      assert last !in init;
    }
  }

  /** In an ascending list, position determines how many are newer. */
  lemma AboveByPosition(names: seq<string>, i: nat)
    requires Ascending(names) && i < |names|
    ensures |Above(Elements(names), names[i])| == |names| - 1 - i
  {
    var after := names[i + 1..];
    AscendingSize(after);
    forall b ensures b in Above(Elements(names), names[i]) <==> b in Elements(after) {
      if b in Above(Elements(names), names[i]) {
        var j :| 0 <= j < |names| && names[j] == b;
        LessIrreflexive(b);
        if j < i { LessAsymmetric(names[j], names[i]); }
        assert after[j - i - 1] == b;
      }
      if b in Elements(after) {
        var j :| 0 <= j < |after| && after[j] == b;
        assert names[i + 1 + j] == b;
      }
    }
    assert Above(Elements(names), names[i]) == Elements(after);
  }

  function Last<T>(s: seq<T>, n: nat): (r: seq<T>)
    ensures |r| == if |s| < n then |s| else n
  {
    if |s| <= n then s else s[|s| - n..]
  }

  /** The newest of an ascending list are its last ones. */
  lemma NewestAreLast(names: seq<string>, limit: nat)
    requires Ascending(names)
    ensures Newest(Elements(names), limit) == Elements(Last(names, limit))
  {
    var last := Last(names, limit);
    forall n | n in Newest(Elements(names), limit) ensures n in last {
      var i :| 0 <= i < |names| && names[i] == n;
      AboveByPosition(names, i);
      assert last[i - (|names| - |last|)] == n;
    }
    forall n | n in last ensures n in Newest(Elements(names), limit) {
      var j :| 0 <= j < |last| && last[j] == n;
      assert names[|names| - |last| + j] == n;
      AboveByPosition(names, |names| - |last| + j);
    }
  }

  // ---------- The directory ----------

  /** An archive directory: entry names, and whether each is a directory. */
  type Listing = map<string, bool>

  ghost predicate IsTgz(name: string) { exists stem :: name == stem + ".tgz" }

  ghost predicate IsArchive(l: Listing, name: string) { name in l && !l[name] && IsTgz(name) }

  ghost function Archives(l: Listing): set<string> {
    set name | name in l && IsArchive(l, name)
  }

  /** How many archives sort after `name`. */
  ghost function Newer(l: Listing, name: string): nat {
    |Above(Archives(l), name)|
  }

  /** What hinders a rotation: the directory may be unreadable, and some files may refuse to be removed. */
  datatype Hindrance = Hindrance(readable: bool, stuck: set<string>)

  const UNHINDERED := Hindrance(true, {})

  /** An entry that rotation leaves: any but a removable archive with at least `limit` newer ones. */
  ghost predicate Stays(l: Listing, limit: int, h: Hindrance, name: string) {
    limit <= 0 || !h.readable || name in h.stuck || !IsArchive(l, name) || Newer(l, name) < limit
  }

  ghost function Rotated(l: Listing, limit: int, h: Hindrance): Listing {
    map name | name in l && Stays(l, limit, h, name) :: l[name]
  }

  // ---------- The rotation loop ----------

  function Insert(sorted: seq<string>, name: string): (r: seq<string>)
    requires Ascending(sorted) && name !in sorted
    ensures Ascending(r) && Elements(r) == Elements(sorted) + {name} && |r| == |sorted| + 1
  {
    if sorted == [] then [name]
    else
      var init, last := sorted[..|sorted| - 1], sorted[|sorted| - 1];
      LessTotal(name, last);
      assert sorted == init + [last];
      if Less(last, name) then
        AscendingSnoc(sorted, name);
        sorted + [name]
      else
        var t := Insert(init, name);
        assert forall n :: n in t ==> n in Elements(init) + {name};
        AscendingSnoc(t, last);
        assert Elements(t + [last]) == Elements(t) + {last};
        t + [last]
  }

  lemma AscendingSnoc(s: seq<string>, name: string)
    requires Ascending(s) && (s == [] || Less(s[|s| - 1], name) || forall n :: n in s ==> Less(n, name))
    ensures Ascending(s + [name]) && Elements(s + [name]) == Elements(s) + {name}
  {
    forall i | 0 <= i < |s| ensures Less(s[i], name) {
      if i < |s| - 1 && Less(s[|s| - 1], name) {
        LessTrans(s[i], s[|s| - 1], name);
      }
    }
  }

  /** How one attempt at a checkpoint went. A failed one removes its own file if it can. */
  datatype Outcome = NoDirectory | Failed(removed: bool) | Written(rotation: Hindrance)

  datatype Attempt = Attempt(name: string, outcome: Outcome)

  ghost function AfterCheckpoint(l: Listing, a: Attempt, limit: int): Listing {
    match a.outcome
    case NoDirectory => l
    case Failed(removed) => if removed then l - {a.name} else l[a.name := false]
    case Written(h) => Rotated(l[a.name := false], limit, h)
  }

  class ArchiveDir {
    var listing: Listing

    constructor (listing: Listing)
      ensures this.listing == listing
    {
      this.listing := listing;
    }

    /** `sort.Strings` over the archive names of `ReadDir`, in whatever order that reports them. */
    method SortedArchives() returns (archives: seq<string>)
      ensures Ascending(archives) && Elements(archives) == Archives(listing)
      ensures forall n :: n in archives <==> n in listing && !listing[n] && exists stem :: n == stem + ".tgz"
    {
      archives := [];
      var rest := listing.Keys;
      while rest != {}
        invariant Ascending(archives) && rest <= listing.Keys
        invariant Elements(archives) == set n | n in Archives(listing) && n !in rest
        decreases |rest|
      {
        var name :| name in rest;
        HasSuffixWhen(name, ".tgz");
        if !listing[name] && HasSuffix(name, ".tgz") {
          assert name !in Elements(archives);
          archives := Insert(archives, name);
        }
        rest := rest - {name};
      }
      assert forall n :: n in archives <==> n in Elements(archives);
    }

    method EnforceRotation(maxArchives: int, h: Hindrance)
      modifies this
      ensures listing == Rotated(old(listing), maxArchives, h)
      ensures maxArchives <= 0 || !h.readable ==> listing == old(listing)
      ensures maxArchives > 0 && h.readable ==> forall n :: n in listing <==>
                && n in old(listing)
                && (IsArchive(old(listing), n) && Newer(old(listing), n) >= maxArchives ==> n in h.stuck)
    {
      if maxArchives <= 0 {
        return;
      }
      if !h.readable {
        return;
      }
      var archives := SortedArchives();
      ghost var before := listing;
      if |archives| > maxArchives {
        var toDelete := |archives| - maxArchives;
        for i := 0 to toDelete
          invariant listing == before - (Elements(archives[..i]) - h.stuck)
        {
          assert archives[..i + 1] == archives[..i] + [archives[i]];
          if archives[i] !in h.stuck {
            listing := listing - {archives[i]};
          }
        }
        DeletedAreRotated(before, archives, maxArchives, h);
      } else {
        NothingToRotate(before, archives, maxArchives, h);
      }
    }

    /**
     One checkpoint's effect on its archive directory: write, then rotate; a failed write touches its own file only.
     */
    method Checkpoint(a: Attempt, maxArchives: int, dryRun: bool)
      modifies this
      ensures listing == if dryRun then old(listing) else AfterCheckpoint(old(listing), a, maxArchives)
    {
      if dryRun || a.outcome.NoDirectory? {
        return;
      }
      listing := listing[a.name := false];
      if a.outcome.Failed? {
        if a.outcome.removed {
          listing := listing - {a.name};
        }
        return;
      }
      EnforceRotation(maxArchives, a.outcome.rotation);
    }
  }

  lemma ArchiveAt(l: Listing, archives: seq<string>, limit: nat, n: string)
    requires Ascending(archives) && Elements(archives) == Archives(l) && n in Archives(l) && limit < |archives|
    ensures n in Elements(archives[..|archives| - limit]) <==> Newer(l, n) >= limit
  {
    assert n in Elements(archives);
    var i :| 0 <= i < |archives| && archives[i] == n;
    AboveByPosition(archives, i);
    var cut := archives[..|archives| - limit];
    if i < |cut| {
      assert cut[i] == n;
    }
    if n in Elements(cut) {
      var j :| 0 <= j < |cut| && cut[j] == n;
      AboveByPosition(archives, j);
    }
  }

  lemma DeletedAreRotated(l: Listing, archives: seq<string>, limit: int, h: Hindrance)
    requires Ascending(archives) && Elements(archives) == Archives(l) && 1 <= limit < |archives| && h.readable
    ensures l - (Elements(archives[..|archives| - limit]) - h.stuck) == Rotated(l, limit, h)
  {
    var gone := Elements(archives[..|archives| - limit]);
    forall n | n in l ensures n in gone - h.stuck <==> !Stays(l, limit, h, n) {
      if IsArchive(l, n) {
        ArchiveAt(l, archives, limit, n);
      } else {
        assert n !in Elements(archives);
      }
    }
  }

  lemma NothingToRotate(l: Listing, archives: seq<string>, limit: int, h: Hindrance)
    requires Ascending(archives) && Elements(archives) == Archives(l) && 1 <= limit && |archives| <= limit
    ensures l == Rotated(l, limit, h)
  {
    forall n | n in l ensures Stays(l, limit, h, n) {
      if IsArchive(l, n) {
        assert n in Elements(archives);
        var i :| 0 <= i < |archives| && archives[i] == n;
        AboveByPosition(archives, i);
      }
    }
  }

  // ---------- Whole runs of checkpoints, from any directory ----------

  ghost function RunCheckpoints(l: Listing, attempts: seq<Attempt>, limit: int): Listing {
    if attempts == [] then l
    else AfterCheckpoint(RunCheckpoints(l, attempts[..|attempts| - 1], limit), attempts[|attempts| - 1], limit)
  }

  predicate LeavesFile(a: Attempt) { a.outcome.Written? || (a.outcome.Failed? && !a.outcome.removed) }

  /** Every archive the directory has ever held: those it started with and those the attempts left. */
  ghost function Ever(l: Listing, attempts: seq<Attempt>): set<string> {
    if attempts == [] then Archives(l)
    else
      var last := attempts[|attempts| - 1];
      Ever(l, attempts[..|attempts| - 1]) + if LeavesFile(last) then {last.name} else {}
  }

  /** The archives that must be there: the newest of all there ever were, or all of them without a limit. */
  ghost function Due(ever: set<string>, limit: int): set<string> {
    if limit <= 0 then ever else Newest(ever, limit)
  }

  ghost predicate WriteArchives(attempts: seq<Attempt>) {
    forall i :: 0 <= i < |attempts| ==> IsTgz(attempts[i].name)
  }

  /** No failed attempt removes, with its own file, an earlier archive of that name that is still due. */
  ghost predicate Careful(l: Listing, attempts: seq<Attempt>, limit: int) {
    forall i :: 0 <= i < |attempts| && attempts[i].outcome.Failed? && attempts[i].outcome.removed ==>
      attempts[i].name !in Due(Ever(l, attempts[..i]), limit)
  }

  /** Entries that are not archives stay as they are, unless an attempt takes their name. */
  ghost predicate OthersStay(before: Listing, after: Listing, attempts: seq<Attempt>) {
    forall n :: (forall i :: 0 <= i < |attempts| ==> attempts[i].name != n) ==>
      && (n in after ==> n in before && after[n] == before[n])
      && (n in before && (before[n] || forall stem :: n != stem + ".tgz") ==> n in after)
  }

  /** All that is due is there, and nothing that was never there. */
  ghost predicate HoldsNewest(l: Listing, ever: set<string>, limit: int) {
    Due(ever, limit) <= Archives(l) <= ever
  }

  /** So it is all along a run. */
  ghost predicate AlwaysHoldsNewest(l: Listing, attempts: seq<Attempt>, limit: int) {
    forall i :: 0 <= i <= |attempts| ==>
      HoldsNewest(RunCheckpoints(l, attempts[..i], limit), Ever(l, attempts[..i]), limit)
  }

  /** With no more archives than the limit a rotation removes nothing, whatever else the directory holds. */
  lemma FewArchivesStay(l: Listing, limit: int, h: Hindrance, archives: set<string>)
    requires forall n :: n in archives <==> n in l && !l[n] && exists stem :: n == stem + ".tgz"
    requires |archives| <= limit
    ensures Rotated(l, limit, h) == l
  {
    assert Archives(l) == archives;
    forall n | n in l ensures Stays(l, limit, h, n) {
      if IsArchive(l, n) {
        LessIrreflexive(n);
        SubsetSize(Above(Archives(l), n), Archives(l) - {n});
      }
    }
  }

  /** A note and a directory beside a lone archive do not count against it. */
  lemma NotesAreNoArchives(h: Hindrance)
    ensures var l := map["a.tgz" := false, "notes.txt" := false, "old.tgz" := true]; Rotated(l, 1, h) == l
  {
    var l := map["a.tgz" := false, "notes.txt" := false, "old.tgz" := true];
    assert "a.tgz" == "a" + ".tgz";
    forall stem ensures "notes.txt" != stem + ".tgz" {
      assert (stem + ".tgz")[|stem + ".tgz"| - 1] == 'z';
    }
    FewArchivesStay(l, 1, h, {"a.tgz"});
  }

  lemma WrittenArchives(l: Listing, name: string)
    requires IsTgz(name)
    ensures Archives(l[name := false]) == Archives(l) + {name}
  {
  }

  lemma RotatedArchives(l: Listing, limit: int, h: Hindrance)
    ensures HoldsNewest(Rotated(l, limit, h), Archives(l), limit)
    ensures limit >= 1 && h.readable && h.stuck !! Archives(l) ==>
            Archives(Rotated(l, limit, h)) == Newest(Archives(l), limit)
  {
    var r := Rotated(l, limit, h);
    forall n ensures n in Archives(r) <==> n in Archives(l) && Stays(l, limit, h, n) {
    }
  }

  lemma CheckpointStep(l: Listing, ever: set<string>, a: Attempt, limit: int)
    requires HoldsNewest(l, ever, limit) && IsTgz(a.name)
    ensures HoldsNewest(AfterCheckpoint(l, a, limit), ever + if LeavesFile(a) then {a.name} else {}, limit) <==>
            !(a.outcome.Failed? && a.outcome.removed && a.name in Due(ever, limit))
    ensures limit >= 1 && a.outcome.Written? && a.outcome.rotation.readable
            && a.outcome.rotation.stuck !! ever + {a.name} ==>
              Archives(AfterCheckpoint(l, a, limit)) == Newest(ever + {a.name}, limit)
  {
    var w := l[a.name := false];
    WrittenArchives(l, a.name);
    if limit >= 1 {
      NewestOfMore(ever, Archives(l), {a.name}, limit);
      NewestWithin(ever + {a.name}, Archives(w), limit);
    }
    match a.outcome
    case NoDirectory => assert ever + {} == ever;
    case Failed(removed) =>
      if removed {
        assert Archives(l - {a.name}) == Archives(l) - {a.name};
        assert ever + {} == ever;
      }
    case Written(h) => RotatedArchives(w, limit, h);
  }

  /** A set with the same newest names holds them. */
  lemma NewestWithin(all: set<string>, some: set<string>, limit: nat)
    requires Newest(some, limit) == Newest(all, limit)
    ensures Newest(all, limit) <= some
  {
  }

  lemma RunStep(l: Listing, attempts: seq<Attempt>, limit: int, i: nat)
    requires WriteArchives(attempts) && i < |attempts|
    requires HoldsNewest(RunCheckpoints(l, attempts[..i], limit), Ever(l, attempts[..i]), limit)
    ensures HoldsNewest(RunCheckpoints(l, attempts[..i + 1], limit), Ever(l, attempts[..i + 1]), limit) <==>
            !(attempts[i].outcome.Failed? && attempts[i].outcome.removed
              && attempts[i].name in Due(Ever(l, attempts[..i]), limit))
    ensures limit >= 1 && attempts[i].outcome == Written(UNHINDERED) ==>
              Archives(RunCheckpoints(l, attempts[..i + 1], limit)) == Newest(Ever(l, attempts[..i + 1]), limit)
  {
    assert attempts[..i + 1][..i] == attempts[..i];
    CheckpointStep(RunCheckpoints(l, attempts[..i], limit), Ever(l, attempts[..i]), attempts[i], limit);
  }

  lemma {:induction false} CarefulHolds(l: Listing, attempts: seq<Attempt>, limit: int, i: nat)
    requires WriteArchives(attempts) && Careful(l, attempts, limit) && i <= |attempts|
    ensures HoldsNewest(RunCheckpoints(l, attempts[..i], limit), Ever(l, attempts[..i]), limit)
  {
    if i > 0 {
      CarefulHolds(l, attempts, limit, i - 1);
      RunStep(l, attempts, limit, i - 1);
    }
  }

  /**
   The rotation promise over every run, from any directory, with clocks that may go back, attempts that may fail and
   rotations that may be hindered. All along, the newest `limit` of all archives there ever were are there, or all of
   them without a limit, and nothing that never was, exactly when no failed attempt hits the name of an earlier archive
   that is still due. After a success with an unhindered rotation there is nothing but those newest.
   */
  lemma RunKeepsNewestWhen(l: Listing, attempts: seq<Attempt>, limit: int)
    requires WriteArchives(attempts)
    ensures AlwaysHoldsNewest(l, attempts, limit) <==> Careful(l, attempts, limit)
    ensures Careful(l, attempts, limit) && limit >= 1
            && attempts != [] && attempts[|attempts| - 1].outcome == Written(UNHINDERED) ==>
              Archives(RunCheckpoints(l, attempts, limit)) == Newest(Ever(l, attempts), limit)
  {
    if Careful(l, attempts, limit) {
      forall i | 0 <= i <= |attempts|
        ensures HoldsNewest(RunCheckpoints(l, attempts[..i], limit), Ever(l, attempts[..i]), limit)
      {
        CarefulHolds(l, attempts, limit, i);
      }
      if attempts != [] {
        RunStep(l, attempts, limit, |attempts| - 1);
        assert attempts[..|attempts|] == attempts;
      }
    } else if AlwaysHoldsNewest(l, attempts, limit) {
      forall i | 0 <= i < |attempts| && attempts[i].outcome.Failed? && attempts[i].outcome.removed
        ensures attempts[i].name !in Due(Ever(l, attempts[..i]), limit)
      {
        RunStep(l, attempts, limit, i);
        assert HoldsNewest(RunCheckpoints(l, attempts[..i + 1], limit), Ever(l, attempts[..i + 1]), limit);
      }
    }
  }

  /** A second attempt within the same second that fails takes the first one's archive with it, whatever the limit. */
  lemma FailureTakesNamesake(l: Listing, name: string, limit: int)
    requires IsTgz(name) && (limit <= 0 || Newer(l, name) < limit)
    ensures var twice := [Attempt(name, Written(UNHINDERED)), Attempt(name, Failed(true))];
            && name in RunCheckpoints(l, twice[..1], limit)
            && name !in RunCheckpoints(l, twice, limit) && !AlwaysHoldsNewest(l, twice, limit)
  {
    var a, b := Attempt(name, Written(UNHINDERED)), Attempt(name, Failed(true));
    var twice := [a, b];
    assert twice[..1] == [a] && [a][..0] == [];
    JustWrittenSurvivesWhen(l, name, limit);
    assert RunCheckpoints(l, [a], limit) == AfterCheckpoint(l, a, limit);
    assert RunCheckpoints(l, twice, limit) == RunCheckpoints(l, [a], limit) - {name};
    assert Ever(l, [a]) == Archives(l) + {name} by {
      assert Ever(l, [a][..0]) == Archives(l);
    }
    RunKeepsNewestWhen(l, twice, limit);
    assert name in Due(Ever(l, twice[..1]), limit) by {
      NewerAfterWrite(l, name);
      WrittenArchives(l, name);
    }
  }

  lemma {:induction false} RunLeavesOthers(l: Listing, attempts: seq<Attempt>, limit: int)
    ensures OthersStay(l, RunCheckpoints(l, attempts, limit), attempts)
  {
    if attempts != [] {
      var n := |attempts| - 1;
      var before := RunCheckpoints(l, attempts[..n], limit);
      RunLeavesOthers(l, attempts[..n], limit);
      forall name | forall i :: 0 <= i <= n ==> attempts[i].name != name
        ensures name in AfterCheckpoint(before, attempts[n], limit) ==>
                  name in before && AfterCheckpoint(before, attempts[n], limit)[name] == before[name]
        ensures name in before && !IsArchive(before, name) ==> name in AfterCheckpoint(before, attempts[n], limit)
      {
        assert attempts[n].name != name;
      }
      assert forall i :: 0 <= i < n ==> attempts[..n][i] == attempts[i];
    }
  }

  // ---------- Increasing timestamps ----------

  datatype TimedAttempt = TimedAttempt(at: Stamp, outcome: Outcome)

  ghost predicate InTimeOrder(ts: seq<Stamp>) {
    && (forall i :: 0 <= i < |ts| ==> ValidStamp(ts[i]))
    && forall i, j :: 0 <= i < j < |ts| ==> Earlier(ts[i], ts[j])
  }

  function NameOf(project: string): Stamp -> string { t => ArchiveName(project, t) }

  function Names(name: Stamp -> string, ts: seq<Stamp>): (names: seq<string>)
    ensures |names| == |ts| && forall i :: 0 <= i < |ts| ==> names[i] == name(ts[i])
  {
    seq(|ts|, i requires 0 <= i < |ts| => name(ts[i]))
  }

  function Named(name: Stamp -> string, attempts: seq<TimedAttempt>): (r: seq<Attempt>)
    ensures |r| == |attempts|
    ensures forall i :: 0 <= i < |r| ==> r[i] == Attempt(name(attempts[i].at), attempts[i].outcome)
  {
    seq(|attempts|, i requires 0 <= i < |attempts| => Attempt(name(attempts[i].at), attempts[i].outcome))
  }

  /** The timestamps whose archives were left. */
  function Left(attempts: seq<TimedAttempt>): seq<Stamp> {
    if attempts == [] then []
    else
      var last := attempts[|attempts| - 1];
      Left(attempts[..|attempts| - 1]) +
      if LeavesFile(Attempt("", last.outcome)) then [last.at] else []
  }

  /** Attempts at strictly increasing times, all later than the archives already held. */
  ghost predicate InTurn(held: seq<Stamp>, attempts: seq<TimedAttempt>) {
    && InTimeOrder(held)
    && (forall i :: 0 <= i < |attempts| ==> ValidStamp(attempts[i].at))
    && (forall i, j :: 0 <= i < j < |attempts| ==> Earlier(attempts[i].at, attempts[j].at))
    && (forall i, j :: 0 <= i < |held| && 0 <= j < |attempts| ==> Earlier(held[i], attempts[j].at))
  }

  lemma SuffixIsTgz(project: string, t: Stamp)
    ensures IsTgz(ArchiveName(project, t))
  {
    var n := ArchiveName(project, t);
    assert n == (project + "-" + Format(t)) + ".tgz";
  }

  lemma NamesAscend(project: string, ts: seq<Stamp>)
    requires InTimeOrder(ts)
    ensures Ascending(Names(NameOf(project), ts))
  {
    forall i, j | 0 <= i < j < |ts| ensures Less(ArchiveName(project, ts[i]), ArchiveName(project, ts[j])) {
      NamesSortInTimeOrder(project, ts[i], ts[j]);
    }
  }

  lemma NamesSnoc(name: Stamp -> string, ts: seq<Stamp>, t: Stamp)
    ensures Elements(Names(name, ts + [t])) == Elements(Names(name, ts)) + {name(t)}
  {
    assert Names(name, ts + [t]) == Names(name, ts) + [name(t)];
  }

  lemma LastOfNames(name: Stamp -> string, ts: seq<Stamp>, limit: nat)
    ensures Last(Names(name, ts), limit) == Names(name, Last(ts, limit))
  {
    var a, b := Last(Names(name, ts), limit), Names(name, Last(ts, limit));
    assert |a| == |b|;
    forall i | 0 <= i < |a| ensures a[i] == b[i] {
      NameAt(name, ts, limit, i);
    }
  }

  lemma NameAt(name: Stamp -> string, ts: seq<Stamp>, limit: nat, i: nat)
    requires i < |Last(ts, limit)|
    ensures Last(Names(name, ts), limit)[i] == name(Last(ts, limit)[i])
  {
  }

  lemma {:induction false} LeftAmong(attempts: seq<TimedAttempt>, t: Stamp)
    requires t in Left(attempts)
    ensures exists i :: 0 <= i < |attempts| && attempts[i].at == t
  {
    var n := |attempts| - 1;
    if t in Left(attempts[..n]) {
      LeftAmong(attempts[..n], t);
      var i :| 0 <= i < n && attempts[..n][i].at == t;
      assert attempts[i].at == t;
    }
  }

  lemma LeftIsEarlier(held: seq<Stamp>, attempts: seq<TimedAttempt>)
    requires attempts != [] && InTurn(held, attempts) && InTimeOrder(held + Left(attempts[..|attempts| - 1]))
    ensures InTimeOrder(held + Left(attempts[..|attempts| - 1]) + [attempts[|attempts| - 1].at])
  {
    var n := |attempts| - 1;
    var ts, at := held + Left(attempts[..n]), attempts[n].at;
    forall i | 0 <= i < |ts| ensures Earlier(ts[i], at) {
      if i >= |held| {
        LeftAmong(attempts[..n], ts[i]);
        var k :| 0 <= k < n && attempts[..n][k].at == ts[i];
        assert attempts[k].at == ts[i];
      }
    }
  }

  lemma {:induction false} LeftInOrder(held: seq<Stamp>, attempts: seq<TimedAttempt>)
    requires InTurn(held, attempts)
    ensures InTimeOrder(held + Left(attempts))
  {
    if attempts == [] {
      assert held + Left(attempts) == held;
    } else {
      var init, last := attempts[..|attempts| - 1], attempts[|attempts| - 1];
      InitInTurn(held, attempts);
      LeftInOrder(held, init);
      LeftIsEarlier(held, attempts);
      assert held + Left(attempts) ==
          if LeavesFile(Attempt("", last.outcome)) then held + Left(init) + [last.at] else held + Left(init);
    }
  }

  lemma InitInTurn(held: seq<Stamp>, attempts: seq<TimedAttempt>)
    requires attempts != [] && InTurn(held, attempts)
    ensures InTurn(held, attempts[..|attempts| - 1])
  {
  }

  lemma NameIsFresh(project: string, ts: seq<Stamp>, t: Stamp)
    requires InTimeOrder(ts + [t])
    ensures ArchiveName(project, t) !in Names(NameOf(project), ts)
  {
    LessIrreflexive(ArchiveName(project, t));
    forall i | 0 <= i < |ts| ensures Names(NameOf(project), ts)[i] != ArchiveName(project, t) {
      assert (ts + [t])[i] == ts[i] && (ts + [t])[|ts|] == t;
      NamesSortInTimeOrder(project, ts[i], t);
    }
  }

  /** What was ever there is named by the held timestamps and those left. */
  lemma {:induction false} EverIsLeft(l: Listing, name: Stamp -> string, held: seq<Stamp>, attempts: seq<TimedAttempt>)
    requires Archives(l) == Elements(Names(name, held))
    ensures Ever(l, Named(name, attempts)) == Elements(Names(name, held + Left(attempts)))
  {
    if attempts == [] {
      assert held + Left(attempts) == held;
    } else {
      var n := |attempts| - 1;
      var init, last := attempts[..n], attempts[n];
      EverIsLeft(l, name, held, init);
      assert Named(name, attempts)[..n] == Named(name, init);
      if LeavesFile(Attempt("", last.outcome)) {
        NamesSnoc(name, held + Left(init), last.at);
        assert held + Left(attempts) == held + Left(init) + [last.at];
      } else {
        assert Left(attempts) == Left(init);
      }
    }
  }

  /** In turn, no attempt hits the name of an earlier archive. */
  lemma InTurnIsCareful(l: Listing, project: string, held: seq<Stamp>, attempts: seq<TimedAttempt>, limit: int)
    requires InTurn(held, attempts) && Archives(l) == Elements(Names(NameOf(project), held))
    ensures WriteArchives(Named(NameOf(project), attempts)) && Careful(l, Named(NameOf(project), attempts), limit)
  {
    var named := Named(NameOf(project), attempts);
    forall i | 0 <= i < |named| ensures IsTgz(named[i].name) && named[i].name !in Ever(l, named[..i]) {
      SuffixIsTgz(project, attempts[i].at);
      FreshInTurn(l, project, held, attempts, i);
      assert named[..i] == Named(NameOf(project), attempts[..i]);
    }
  }

  lemma FreshInTurn(l: Listing, project: string, held: seq<Stamp>, attempts: seq<TimedAttempt>, i: nat)
    requires InTurn(held, attempts) && Archives(l) == Elements(Names(NameOf(project), held)) && i < |attempts|
    ensures ArchiveName(project, attempts[i].at) !in Ever(l, Named(NameOf(project), attempts[..i]))
  {
    PrefixInTurn(held, attempts, i + 1);
    assert attempts[..i + 1][..i] == attempts[..i];
    InitInTurn(held, attempts[..i + 1]);
    LeftInOrder(held, attempts[..i]);
    LeftIsEarlier(held, attempts[..i + 1]);
    NameIsFresh(project, held + Left(attempts[..i]), attempts[i].at);
    EverIsLeft(l, NameOf(project), held, attempts[..i]);
  }

  lemma PrefixInTurn(held: seq<Stamp>, attempts: seq<TimedAttempt>, n: nat)
    requires InTurn(held, attempts) && n <= |attempts|
    ensures InTurn(held, attempts[..n])
  {
  }

  /**
   With the project's own archives at strictly increasing timestamps: after a success with an unhindered rotation the
   directory holds exactly the newest min(total, limit), the one just written among them.
   */
  lemma NewestAreKept(l: Listing, project: string, held: seq<Stamp>, attempts: seq<TimedAttempt>, limit: nat)
    requires limit >= 1 && InTurn(held, attempts) && Archives(l) == Elements(Names(NameOf(project), held))
    requires attempts != [] && attempts[|attempts| - 1].outcome == Written(UNHINDERED)
    ensures var kept := Archives(RunCheckpoints(l, Named(NameOf(project), attempts), limit));
            && kept == Elements(Names(NameOf(project), Last(held + Left(attempts), limit)))
            && |kept| == (if |held + Left(attempts)| < limit then |held + Left(attempts)| else limit)
            && ArchiveName(project, attempts[|attempts| - 1].at) in kept
  {
    var ts := held + Left(attempts);
    InTurnIsCareful(l, project, held, attempts, limit);
    RunKeepsNewestWhen(l, Named(NameOf(project), attempts), limit);
    EverIsLeft(l, NameOf(project), held, attempts);
    LeftInOrder(held, attempts);
    NamesAscend(project, ts);
    NewestNames(NameOf(project), ts, limit);
    assert ts[|ts| - 1] == attempts[|attempts| - 1].at;
  }

  lemma NewestNames(name: Stamp -> string, ts: seq<Stamp>, limit: nat)
    requires Ascending(Names(name, ts))
    ensures Newest(Elements(Names(name, ts)), limit) == Elements(Names(name, Last(ts, limit)))
    ensures |Newest(Elements(Names(name, ts)), limit)| == if |ts| < limit then |ts| else limit
    ensures limit >= 1 && ts != [] ==> name(ts[|ts| - 1]) in Elements(Names(name, Last(ts, limit)))
  {
    NewestAreLast(Names(name, ts), limit);
    LastOfNames(name, ts, limit);
    AscendingSize(Names(name, ts));
    NewestSize(Elements(Names(name, ts)), limit);
    if limit >= 1 && ts != [] {
      NewestName(name, ts, limit);
    }
  }

  lemma NewestName(name: Stamp -> string, ts: seq<Stamp>, limit: nat)
    requires limit >= 1 && ts != []
    ensures name(ts[|ts| - 1]) in Elements(Names(name, Last(ts, limit)))
  {
    var last := Last(ts, limit);
    assert last[|last| - 1] == ts[|ts| - 1];
    assert Names(name, last)[|last| - 1] == name(ts[|ts| - 1]);
  }

  // ---------- Survival of the archive just written ----------

  lemma NewerAfterWrite(l: Listing, name: string)
    requires IsTgz(name)
    ensures Newer(l[name := false], name) == Newer(l, name)
  {
    LessIrreflexive(name);
    WrittenArchives(l, name);
    assert Above(Archives(l) + {name}, name) == Above(Archives(l), name);
  }

  /** A checkpoint survives its own unhindered rotation exactly when fewer than `limit` archives sort after it. */
  lemma JustWrittenSurvivesWhen(l: Listing, name: string, limit: int)
    requires IsTgz(name)
    ensures name in AfterCheckpoint(l, Attempt(name, Written(UNHINDERED)), limit) <==>
            limit <= 0 || Newer(l, name) < limit
  {
    NewerAfterWrite(l, name);
  }

  /** A foreign archive that sorts later can push out the checkpoint just written. */
  lemma ForeignArchiveEvicts()
    ensures var a := Attempt("a-20240101-000000.tgz", Written(UNHINDERED));
            a.name !in AfterCheckpoint(map["z.tgz" := false], a, 1)
  {
    var name := "a-20240101-000000.tgz";
    assert name == "a-20240101-000000" + ".tgz" && "z.tgz" == "z" + ".tgz";
    LaterEvicts(name, "z.tgz");
  }

  lemma LaterEvicts(name: string, later: string)
    requires IsTgz(name) && IsTgz(later) && Less(name, later)
    ensures name !in AfterCheckpoint(map[later := false], Attempt(name, Written(UNHINDERED)), 1)
  {
    var l: Listing := map[later := false];
    JustWrittenSurvivesWhen(l, name, 1);
    assert Archives(l) == {later};
    assert Above(Archives(l), name) == {later};
  }
}
