/** Facts about sequences that several modules share. */
module Sequences {

  lemma Regroup<T>(a: seq<T>, b: seq<T>, c: seq<T>)
    ensures a + b + c == a + (b + c)
  {
  }

  lemma SplitAt<T>(s: seq<T>, k: nat)
    requires k <= |s|
    ensures s == s[..k] + s[k..]
  {
  }

  lemma InitAndLast<T>(s: seq<T>)
    requires s != []
    ensures s == s[..|s| - 1] + [s[|s| - 1]]
  {
  }

  lemma TwiceInMultiset<T>(s: seq<T>, i: nat, j: nat)
    requires i < j < |s| && s[i] == s[j]
    ensures multiset(s)[s[i]] >= 2
  {
    assert s == s[..i] + [s[i]] + s[i + 1..j] + [s[j]] + s[j + 1..];
  }

  lemma OnceInMultiset<T>(s: seq<T>, i: nat)
    requires i < |s| && forall j :: 0 <= j < |s| && j != i ==> s[j] != s[i]
    ensures multiset(s)[s[i]] == 1
  {
    assert s == s[..i] + [s[i]] + s[i + 1..];
    assert s[i] !in s[..i] && s[i] !in s[i + 1..];
    assert s[i] !in multiset(s[..i]) && s[i] !in multiset(s[i + 1..]);
  }

  function Elements<T>(s: seq<T>): set<T> { set x | x in s }

  lemma MemberAt<T>(s: seq<T>, x: T) returns (i: nat)
    requires x in Elements(s)
    ensures i < |s| && s[i] == x
  {
    i :| i < |s| && s[i] == x;
  }

  lemma SubsetSize<T>(a: set<T>, b: set<T>)
    requires a <= b
    ensures |a| <= |b|
    ensures |a| == |b| ==> a == b
  {
    assert b == a + (b - a);
    assert |b| == |a| + |b - a|;
  }

  /** The sum of a measure over a sequence. */
  function Total<A>(measure: A -> nat, xs: seq<A>): nat {
    if xs == [] then 0 else measure(xs[0]) + Total(measure, xs[1..])
  }

  lemma {:induction false} TotalUpdate<A>(measure: A -> nat, xs: seq<A>, i: nat, x: A)
    requires i < |xs|
    ensures Total(measure, xs[i := x]) == Total(measure, xs) - measure(xs[i]) + measure(x)
  {
    if i > 0 {
      assert xs[i := x][1..] == xs[1..][i - 1 := x];
      TotalUpdate(measure, xs[1..], i - 1, x);
    } else {
      assert xs[0 := x][1..] == xs[1..];
    }
  }

  lemma {:induction false} TotalOfSame<A>(measure: A -> nat, xs: seq<A>, each: nat)
    requires forall i :: 0 <= i < |xs| ==> measure(xs[i]) == each
    ensures Total(measure, xs) == each * |xs|
  {
    if xs != [] {
      TotalOfSame(measure, xs[1..], each);
    }
  }
}
