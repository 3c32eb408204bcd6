/**
 Filling `{name}` placeholders: the code replaces one name at a time, in Go's random map order, over the whole string.
 The values are the already printed arguments.
 */
module Dispatch {
  import opened Sequences

  datatype Result<+T> = Ok(value: T) | Unfilled

  predicate BraceFree(s: string) { '{' !in s && '}' !in s }

  /** `strings.ReplaceAll` for a non-empty pattern: leftmost, non-overlapping, never rescanning what it inserted. */
  function ReplaceAll(s: string, pattern: string, value: string): string
    requires pattern != ""
    decreases |s|
  {
    if s == "" then ""
    else if pattern <= s then value + ReplaceAll(s[|pattern|..], pattern, value)
    else [s[0]] + ReplaceAll(s[1..], pattern, value)
  }

  function Placeholder(name: string): string { "{" + name + "}" }

  // ---------- The loops ----------

  /** An iteration order of a map: each key once. */
  ghost predicate IsOrder(order: seq<string>, args: map<string, string>) {
    && (forall i, j :: 0 <= i < j < |order| ==> order[i] != order[j])
    && (forall n :: n in order <==> n in args)
  }

  /** Replacing one name after the other. */
  ghost function Sequential(s: string, order: seq<string>, args: map<string, string>): string {
    if order == [] then s
    else
      var name := order[|order| - 1];
      var before := Sequential(s, order[..|order| - 1], args);
      if name in args then ReplaceAll(before, Placeholder(name), args[name]) else before
  }

  ghost function Checked(s: string): Result<string> { if BraceFree(s) then Ok(s) else Unfilled }

  /** The replacement loop over a map, in whatever order the map yields its keys. */
  method ReplaceEach(s: string, args: map<string, string>) returns (t: string)
    ensures exists order :: IsOrder(order, args) && t == Sequential(s, order, args)
  {
    t := s;
    ghost var order := [];
    var rest := args.Keys;
    while rest != {}
      invariant rest <= args.Keys
      invariant forall i, j :: 0 <= i < j < |order| ==> order[i] != order[j]
      invariant forall n :: n in order <==> n in args && n !in rest
      invariant t == Sequential(s, order, args)
      decreases |rest|
    {
      var name :| name in rest;
      t := ReplaceAll(t, Placeholder(name), args[name]);
      assert (order + [name])[..|order|] == order;
      order := order + [name];
      rest := rest - {name};
    }
  }

  ghost function Escaped(args: map<string, string>): map<string, string> {
    map n | n in args :: PathEscape(args[n])
  }

  method RenderUrl(rawURL: string, args: map<string, string>) returns (r: Result<string>)
    ensures exists order :: IsOrder(order, Escaped(args)) && r == Checked(Sequential(rawURL, order, Escaped(args)))
  {
    var escaped := map n | n in args :: PathEscape(args[n]);
    assert escaped == Escaped(args);
    var t := ReplaceEach(rawURL, escaped);
    ghost var order :| IsOrder(order, escaped) && t == Sequential(rawURL, order, escaped);
    r := if '{' in t || '}' in t then Unfilled else Ok(t);
    assert r == Checked(Sequential(rawURL, order, Escaped(args)));
  }

  /** Each argv entry is filled on its own, with its own iteration order; the first unfilled one fails the call. */
  method RenderArgs(args: seq<string>, callArgs: map<string, string>) returns (r: Result<seq<string>>)
    ensures r.Ok? ==> |r.value| == |args| && forall i :: 0 <= i < |args| ==> FilledAs(args[i], callArgs, Ok(r.value[i]))
    ensures r.Unfilled? ==> exists i :: FirstUnfilled(args, callArgs, i)
  {
    var out: seq<string> := [];
    for i := 0 to |args|
      invariant FilledUpTo(args, callArgs, out, i)
    {
      var a := ReplaceEach(args[i], callArgs);
      ReplacedIsFilled(args[i], callArgs, a);
      if '{' in a || '}' in a {
        StopsAt(args, callArgs, out, i);
        return Unfilled;
      }
      FillsOneMore(args, callArgs, out, i, a);
      out := out + [a];
    }
    return Ok(out);
  }

  /** The first `i` entries are filled as the call can fill them. */
  ghost predicate FilledUpTo(args: seq<string>, callArgs: map<string, string>, out: seq<string>, i: int) {
    && 0 <= i <= |args| && |out| == i
    && forall j :: 0 <= j < i ==> FilledAs(args[j], callArgs, Ok(out[j]))
  }

  lemma FillsOneMore(args: seq<string>, callArgs: map<string, string>, out: seq<string>, i: nat, a: string)
    requires FilledUpTo(args, callArgs, out, i) && i < |args| && FilledAs(args[i], callArgs, Ok(a))
    ensures FilledUpTo(args, callArgs, out + [a], i + 1)
  {
  }

  lemma StopsAt(args: seq<string>, callArgs: map<string, string>, out: seq<string>, i: nat)
    requires FilledUpTo(args, callArgs, out, i) && i < |args| && FilledAs(args[i], callArgs, Unfilled)
    ensures FirstUnfilled(args, callArgs, i)
  {
    forall j | 0 <= j < i ensures Fillable(args[j], callArgs) {
      assert FilledAs(args[j], callArgs, Ok(out[j]));
    }
  }

  lemma ReplacedIsFilled(s: string, args: map<string, string>, t: string)
    requires exists order :: IsOrder(order, args) && t == Sequential(s, order, args)
    ensures FilledAs(s, args, if '{' in t || '}' in t then Unfilled else Ok(t))
  {
    var order :| IsOrder(order, args) && t == Sequential(s, order, args);
    assert Checked(t) == Checked(Sequential(s, order, args));
  }

  /** Entry `i` came out unfilled after every earlier one had been filled. */
  ghost predicate FirstUnfilled(args: seq<string>, callArgs: map<string, string>, i: int) {
    && 0 <= i < |args| && FilledAs(args[i], callArgs, Unfilled)
    && forall j :: 0 <= j < i ==> Fillable(args[j], callArgs)
  }

  ghost predicate Fillable(s: string, callArgs: map<string, string>) {
    exists t :: FilledAs(s, callArgs, Ok(t))
  }

  /** Some iteration order gives this outcome. */
  ghost predicate FilledAs(s: string, args: map<string, string>, r: Result<string>) {
    exists order :: IsOrder(order, args) && r == Checked(Sequential(s, order, args))
  }

  // ---------- Flat templates ----------

  datatype Token = Lit(text: string) | Hole(name: string)

  function Flat(ts: seq<Token>): string {
    if ts == [] then "" else Text(ts[0]) + Flat(ts[1..])
  }

  function Text(t: Token): string {
    match t
    case Lit(text) => text
    case Hole(name) => Placeholder(name)
  }

  /** No nested or stray braces. */
  predicate IsFlat(ts: seq<Token>) {
    forall i :: 0 <= i < |ts| ==> match ts[i] case Lit(text) => BraceFree(text) case Hole(name) => BraceFree(name)
  }

  function Fill(ts: seq<Token>, name: string, value: string): (r: seq<Token>)
    ensures |r| == |ts|
    ensures forall i :: 0 <= i < |ts| ==> r[i] == if ts[i] == Hole(name) then Lit(value) else ts[i]
  {
    seq(|ts|, i requires 0 <= i < |ts| => if ts[i] == Hole(name) then Lit(value) else ts[i])
  }

  /** Simultaneous substitution: every placeholder with an argument becomes its value, nothing else changes. */
  function Subst(ts: seq<Token>, args: map<string, string>): (r: seq<Token>)
    ensures |r| == |ts|
    ensures forall i :: 0 <= i < |ts| ==>
            r[i] == if ts[i].Hole? && ts[i].name in args then Lit(args[ts[i].name]) else ts[i]
  {
    seq(|ts|, i requires 0 <= i < |ts| => if ts[i].Hole? && ts[i].name in args then Lit(args[ts[i].name]) else ts[i])
  }

  /** Every placeholder has an argument. */
  predicate AllFilled(ts: seq<Token>, args: map<string, string>) {
    forall i :: 0 <= i < |ts| && ts[i].Hole? ==> ts[i].name in args
  }

  /** The values that the template actually uses contain no braces. */
  predicate UsedBraceFree(ts: seq<Token>, args: map<string, string>) {
    forall i :: 0 <= i < |ts| && ts[i].Hole? && ts[i].name in args ==> BraceFree(args[ts[i].name])
  }

  predicate NamesBraceFree(args: map<string, string>) {
    forall n :: n in args ==> BraceFree(n)
  }

  lemma {:induction false} ReplaceInText(text: string, rest: string, name: string, value: string)
    requires '{' !in text
    ensures ReplaceAll(text + rest, Placeholder(name), value) == text + ReplaceAll(rest, Placeholder(name), value)
  {
    if text == "" {
      assert text + rest == rest;
    } else {
      var s, p := text + rest, Placeholder(name);
      assert s[0] == text[0] && p[0] == '{';
      assert !(p <= s);
      assert s[1..] == text[1..] + rest;
      ReplaceInText(text[1..], rest, name, value);
      assert text == [text[0]] + text[1..];
    }
  }

  /** Two brace-free names match at an opening brace only when they are equal. */
  lemma PlaceholderMatches(m: string, n: string, rest: string)
    requires BraceFree(m) && BraceFree(n)
    ensures Placeholder(n) <= Placeholder(m) + rest <==> m == n
  {
    var s, p := Placeholder(m) + rest, Placeholder(n);
    if p <= s {
      assert p[|n| + 1] == '}' && s[|m| + 1] == '}';
      assert forall k :: 0 <= k < |m| ==> s[k + 1] == m[k] && m[k] in m;
      assert forall k :: 0 <= k < |n| ==> p[k + 1] == n[k] && n[k] in n;
      assert forall k :: 0 <= k < |p| ==> p[k] == s[k];
      assert |n| == |m|;
      forall k | 0 <= k < |n| ensures m[k] == n[k] {
        assert s[k + 1] == p[k + 1];
      }
    }
  }

  lemma ReplaceAtHole(m: string, rest: string, n: string, value: string)
    requires BraceFree(m) && BraceFree(n)
    ensures ReplaceAll(Placeholder(m) + rest, Placeholder(n), value) ==
            (if m == n then value else Placeholder(m)) + ReplaceAll(rest, Placeholder(n), value)
  {
    var s, p := Placeholder(m) + rest, Placeholder(n);
    PlaceholderMatches(m, n, rest);
    if m == n {
      assert s[|p|..] == rest;
    } else {
      var tail := m + "}";
      assert s == ['{'] + (tail + rest) && s[1..] == tail + rest;
      ReplaceInText(tail, rest, n, value);
      assert ['{'] + (tail + ReplaceAll(rest, p, value)) == Placeholder(m) + ReplaceAll(rest, p, value);
    }
  }

  /** One ReplaceAll on a flat template fills exactly the placeholders of that name, whatever the value. */
  lemma {:induction false} ReplaceIsFill(ts: seq<Token>, name: string, value: string)
    requires IsFlat(ts) && BraceFree(name)
    ensures ReplaceAll(Flat(ts), Placeholder(name), value) == Flat(Fill(ts, name, value))
  {
    if ts != [] {
      ReplaceIsFill(ts[1..], name, value);
      assert Fill(ts, name, value)[1..] == Fill(ts[1..], name, value);
      match ts[0]
      case Lit(text) => ReplaceInText(text, Flat(ts[1..]), name, value);
      case Hole(m) => ReplaceAtHole(m, Flat(ts[1..]), name, value);
    }
  }

  /** The arguments named by an order, as a map. */
  ghost function Named(order: seq<string>, args: map<string, string>): map<string, string> {
    map n | n in order && n in args :: args[n]
  }

  /** Filling one more name after a simultaneous substitution is a simultaneous substitution with one more name. */
  lemma FillAfterSubst(ts: seq<Token>, order: seq<string>, name: string, args: map<string, string>)
    requires name in args && name !in order
    ensures Fill(Subst(ts, Named(order, args)), name, args[name]) == Subst(ts, Named(order + [name], args))
  {
  }

  lemma SubstIsFlat(ts: seq<Token>, args: map<string, string>, order: seq<string>)
    requires IsFlat(ts) && UsedBraceFree(ts, args)
    ensures IsFlat(Subst(ts, Named(order, args)))
  {
  }

  /** Whatever the order, replacing one name at a time is the simultaneous substitution. */
  lemma {:induction false} SequentialIsSimultaneous(ts: seq<Token>, order: seq<string>, args: map<string, string>)
    requires IsFlat(ts) && NamesBraceFree(args) && UsedBraceFree(ts, args)
    requires forall i, j :: 0 <= i < j < |order| ==> order[i] != order[j]
    requires forall n :: n in order ==> n in args
    ensures Sequential(Flat(ts), order, args) == Flat(Subst(ts, Named(order, args)))
  {
    if order == [] {
      assert Subst(ts, Named([], args)) == ts;
    } else {
      var init, name := order[..|order| - 1], order[|order| - 1];
      SequentialIsSimultaneous(ts, init, args);
      SubstIsFlat(ts, args, init);
      ReplaceIsFill(Subst(ts, Named(init, args)), name, args[name]);
      FillAfterSubst(ts, init, name, args);
      assert order == init + [name];
    }
  }

  lemma {:induction false} FlatBraceFree(ts: seq<Token>)
    ensures BraceFree(Flat(ts)) <==> forall i :: 0 <= i < |ts| ==> ts[i].Lit? && BraceFree(ts[i].text)
  {
    if ts != [] {
      FlatBraceFree(ts[1..]);
      assert forall i :: 1 <= i < |ts| ==> ts[i] == ts[1..][i - 1];
      if ts[0].Hole? {
        assert Flat(ts)[0] == '{';
      } else {
        assert forall c :: c in Flat(ts) <==> c in ts[0].text || c in Flat(ts[1..]);
      }
      if BraceFree(Flat(ts[1..])) && ts[0].Lit? && BraceFree(ts[0].text) {
        forall i | 0 <= i < |ts| ensures ts[i].Lit? && BraceFree(ts[i].text) {
          if i > 0 { assert ts[1..][i - 1] == ts[i]; }
        }
      }
      assert forall i :: 0 <= i < |ts[1..]| ==> ts[1..][i] == ts[i + 1];
    }
  }

  /** The filled template is free of braces exactly when nothing was left unfilled and no used value brought a brace. */
  lemma FilledBraceFree(ts: seq<Token>, args: map<string, string>)
    requires IsFlat(ts)
    ensures BraceFree(Flat(Subst(ts, args))) <==> AllFilled(ts, args) && UsedBraceFree(ts, args)
  {
    var r := Subst(ts, args);
    FlatBraceFree(r);
    if BraceFree(Flat(r)) {
      forall i | 0 <= i < |ts| && ts[i].Hole? ensures ts[i].name in args && BraceFree(args[ts[i].name]) {
        assert r[i].Lit?;
      }
    }
  }

  /**
   Exactly when filling a flat template with brace-free argument names gives the simultaneous substitution, in every
   order: when each placeholder has an argument and the values used are brace-free. If only an argument is missing, it
   is an error.
   */
  lemma FillingIsSimultaneousWhen(ts: seq<Token>, args: map<string, string>, order: seq<string>)
    requires IsFlat(ts) && NamesBraceFree(args) && IsOrder(order, args)
    ensures Checked(Sequential(Flat(ts), order, args)) == Ok(Flat(Subst(ts, args)))
            <==> AllFilled(ts, args) && UsedBraceFree(ts, args)
    ensures UsedBraceFree(ts, args) && !AllFilled(ts, args) ==> Checked(Sequential(Flat(ts), order, args)) == Unfilled
  {
    FilledBraceFree(ts, args);
    assert Named(order, args) == args;
    if UsedBraceFree(ts, args) {
      SequentialIsSimultaneous(ts, order, args);
    }
  }

  /**
   renderURL on flat templates: the simultaneous substitution of the escaped values in any order, or an error exactly
   for a missing argument.
   */
  lemma UrlIsSimultaneous(ts: seq<Token>, args: map<string, string>, order: seq<string>)
    requires IsFlat(ts) && NamesBraceFree(args) && IsOrder(order, Escaped(args))
    ensures Checked(Sequential(Flat(ts), order, Escaped(args))) ==
            if AllFilled(ts, args) then Ok(Flat(Subst(ts, Escaped(args)))) else Unfilled
  {
    forall n | n in args ensures BraceFree(Escaped(args)[n]) {
      EscapeIsBraceFree(args[n]);
    }
    FillingIsSimultaneousWhen(ts, Escaped(args), order);
  }

  /**
   renderArgs on a flat entry: whatever order the map yields, the entry becomes the simultaneous substitution exactly
   then.
   */
  lemma ArgIsSimultaneousWhen(ts: seq<Token>, callArgs: map<string, string>, r: Result<string>)
    requires IsFlat(ts) && NamesBraceFree(callArgs) && FilledAs(Flat(ts), callArgs, r)
    ensures r == Ok(Flat(Subst(ts, callArgs))) <==> AllFilled(ts, callArgs) && UsedBraceFree(ts, callArgs)
    ensures UsedBraceFree(ts, callArgs) && !AllFilled(ts, callArgs) ==> r == Unfilled
  {
    var order :| IsOrder(order, callArgs) && r == Checked(Sequential(Flat(ts), order, callArgs));
    FillingIsSimultaneousWhen(ts, callArgs, order);
  }

  /** renderArgs with a brace in a value: two iteration orders of the same call give different outcomes. */
  lemma ArgsDependOnOrder()
    ensures var args := map["a" := "{b}", "b" := "x"];
            && IsOrder(["a", "b"], args) && IsOrder(["b", "a"], args)
            && Checked(Sequential("{a}", ["a", "b"], args)) == Ok("x")
            && Checked(Sequential("{a}", ["b", "a"], args)) == Unfilled
  {
    var args := map["a" := "{b}", "b" := "x"];
    assert Placeholder("a") == "{a}" && Placeholder("b") == "{b}";
    assert Sequential("{a}", ["a", "b"], args) == "x" by {
      OneHole("a", "a", "{b}");
      OneHole("b", "b", "x");
      TwoRounds("{a}", "a", "b", args);
    }
    assert Sequential("{a}", ["b", "a"], args) == "{b}" by {
      OneHole("a", "b", "x");
      OneHole("a", "a", "{b}");
      TwoRounds("{a}", "b", "a", args);
    }
  }

  lemma TwoRounds(t: string, first: string, second: string, args: map<string, string>)
    requires first in args && second in args
    ensures Sequential(t, [first, second], args) ==
            ReplaceAll(ReplaceAll(t, Placeholder(first), args[first]), Placeholder(second), args[second])
  {
    assert [first, second][..1] == [first] && [first][..0] == [];
    assert Sequential(t, [first], args) == ReplaceAll(t, Placeholder(first), args[first]);
  }

  lemma OneHole(m: string, n: string, v: string)
    requires BraceFree(m) && BraceFree(n)
    ensures ReplaceAll(Placeholder(m), Placeholder(n), v) == if m == n then v else Placeholder(m)
  {
    ReplaceAtHole(m, "", n, v);
    assert Placeholder(m) + "" == Placeholder(m) && v + "" == v;
  }

  // ---------- Path escaping ----------

  predicate Unreserved(c: char) {
    || 'a' <= c <= 'z' || 'A' <= c <= 'Z' || '0' <= c <= '9'
    || c in {'-', '_', '.', '~', '$', '&', '+', ':', '=', '@'}
  }

  function Utf8(c: char): seq<nat> {
    var u := c as int;
    if u < 0x80 then [u]
    else if u < 0x800 then [0xC0 + u / 0x40, 0x80 + u % 0x40]
    else if u < 0x10000 then [0xE0 + u / 0x1000, 0x80 + u / 0x40 % 0x40, 0x80 + u % 0x40]
    else [0xF0 + u / 0x40000, 0x80 + u / 0x1000 % 0x40, 0x80 + u / 0x40 % 0x40, 0x80 + u % 0x40]
  }

  function Hex(n: nat): char { "0123456789ABCDEF"[n % 16] }

  function EscapeByte(b: nat): string { ['%', Hex(b / 16), Hex(b)] }

  function EscapeBytes(bytes: seq<nat>): string {
    if bytes == [] then "" else EscapeByte(bytes[0]) + EscapeBytes(bytes[1..])
  }

  /** `url.PathEscape` of the argument's UTF-8 bytes. */
  function PathEscape(s: string): string {
    if s == "" then "" else (if Unreserved(s[0]) then [s[0]] else EscapeBytes(Utf8(s[0]))) + PathEscape(s[1..])
  }

  /** What a path segment may be made of: section 3.3 of RFC 3986, the percent sign of an escape included. */
  predicate InSegment(c: char) {
    || 'a' <= c <= 'z' || 'A' <= c <= 'Z' || '0' <= c <= '9' || c in "-._~" || c in "!$&'()*+,;="
    || c in ":@" || c == '%'
  }

  lemma UnreservedIsInSegment(c: char)
    requires Unreserved(c)
    ensures InSegment(c) && c != '%'
  {
    assert "-._~"[0] == '-' && "-._~"[1] == '.' && "-._~"[2] == '_' && "-._~"[3] == '~';
    var d := "!$&'()*+,;=";
    assert d[1] == '$' && d[2] == '&' && d[7] == '+' && d[10] == '=' && ":@"[0] == ':' && ":@"[1] == '@';
  }

  lemma HexDigits(n: nat)
    ensures Unreserved(Hex(n)) && HexValue(Hex(n)) == n % 16
  {
    var digits := "0123456789ABCDEF";
    assert forall i :: 0 <= i < |digits| ==>
            ('0' <= digits[i] <= '9' || 'A' <= digits[i] <= 'F') && HexValue(digits[i]) == i;
  }

  function HexValue(c: char): nat {
    if '0' <= c <= '9' then (c - '0') as nat else if 'A' <= c <= 'F' then (c - 'A') as nat + 10 else 0
  }

  /** What the receiving router decodes a segment to, as bytes. */
  function Unescape(s: string): seq<nat> {
    if s == "" then []
    else if s[0] == '%' && |s| >= 3 then [HexValue(s[1]) * 16 + HexValue(s[2])] + Unescape(s[3..])
    else [s[0] as nat] + Unescape(s[1..])
  }

  function Bytes(s: string): seq<nat> {
    if s == "" then [] else Utf8(s[0]) + Bytes(s[1..])
  }

  lemma EscapedByteDecodes(b: nat, rest: string)
    requires b < 256
    ensures Unescape(EscapeByte(b) + rest) == [b] + Unescape(rest)
  {
    HexDigits(b / 16);
    HexDigits(b);
    var s := EscapeByte(b) + rest;
    assert s[0] == '%' && s[1] == Hex(b / 16) && s[2] == Hex(b);
    assert s[3..] == rest;
    assert HexValue(s[1]) == b / 16 && HexValue(s[2]) == b % 16;
  }

  predicate AreBytes(bytes: seq<nat>) { forall i :: 0 <= i < |bytes| ==> bytes[i] < 256 }

  lemma {:induction false} EscapeBytesDecodes(bytes: seq<nat>, rest: string)
    requires AreBytes(bytes)
    ensures Unescape(EscapeBytes(bytes) + rest) == bytes + Unescape(rest)
  {
    if bytes == [] {
      assert EscapeBytes(bytes) + rest == rest;
    } else {
      var b, tail := bytes[0], bytes[1..];
      assert AreBytes(tail);
      calc {
        Unescape(EscapeBytes(bytes) + rest);
        { Regroup(EscapeByte(b), EscapeBytes(tail), rest); }
        Unescape(EscapeByte(b) + (EscapeBytes(tail) + rest));
        { EscapedByteDecodes(b, EscapeBytes(tail) + rest); }
        [b] + Unescape(EscapeBytes(tail) + rest);
        { EscapeBytesDecodes(tail, rest); }
        [b] + (tail + Unescape(rest));
        { Regroup([b], tail, Unescape(rest)); }
        [b] + tail + Unescape(rest);
        { assert [b] + tail == bytes; }
        bytes + Unescape(rest);
      }
    }
  }

  lemma {:induction false} EscapeBytesInSegment(bytes: seq<nat>)
    ensures forall c :: c in EscapeBytes(bytes) ==> InSegment(c)
  {
    if bytes != [] {
      HexDigits(bytes[0] / 16);
      HexDigits(bytes[0]);
      UnreservedIsInSegment(Hex(bytes[0] / 16));
      UnreservedIsInSegment(Hex(bytes[0]));
      EscapeBytesInSegment(bytes[1..]);
    }
  }

  /** An escaped value is one path segment, and decodes back to exactly the argument's bytes. */
  lemma {:induction false} EscapeRoundTrip(s: string)
    ensures Unescape(PathEscape(s)) == Bytes(s)
    ensures forall c :: c in PathEscape(s) ==> InSegment(c)
  {
    if s != "" {
      EscapeRoundTrip(s[1..]);
      var rest := PathEscape(s[1..]);
      if Unreserved(s[0]) {
        UnreservedIsInSegment(s[0]);
        assert ([s[0]] + rest)[1..] == rest;
      } else {
        EscapeBytesDecodes(Utf8(s[0]), rest);
        EscapeBytesInSegment(Utf8(s[0]));
      }
    }
  }

  /** Letters, digits and these marks are left as they are. */
  lemma {:induction false} PlainIsKept(s: string)
    requires forall c :: c in s ==> 'a' <= c <= 'z' || 'A' <= c <= 'Z' || '0' <= c <= '9' || c in "-_.~$&+:=@"
    ensures PathEscape(s) == s
  {
    if s != "" {
      assert s[0] in s && Unreserved(s[0]);
      PlainIsKept(s[1..]);
    }
  }

  /** How many bytes a character takes, by its first byte: section 3 of RFC 3629. */
  function Width(first: nat): nat {
    if first < 0x80 then 1 else if first < 0xE0 then 2 else if first < 0xF0 then 3 else 4
  }

  /** The low six bits of continuation bytes, most significant first. */
  function Tail(high: int, bytes: seq<nat>): int {
    if bytes == [] then high else Tail(high, bytes[..|bytes| - 1]) * 0x40 + (bytes[|bytes| - 1] as int - 0x80)
  }

  /** The bits of a first byte that belong to the character. */
  function Lead(first: nat): int {
    match Width(first)
    case 1 => first
    case 2 => first - 0xC0
    case 3 => first - 0xE0
    case _ => first - 0xF0
  }

  /** UTF-8 read back. */
  function Runes(bytes: seq<nat>): seq<int> {
    if bytes == [] then []
    else if |bytes| < Width(bytes[0]) then [0xFFFD]
    else [Tail(Lead(bytes[0]), bytes[1..Width(bytes[0])])] + Runes(bytes[Width(bytes[0])..])
  }

  lemma DigitsOf(u: nat)
    ensures u == u / 0x40 * 0x40 + u % 0x40
    ensures u / 0x40 == u / 0x1000 * 0x40 + u / 0x40 % 0x40
    ensures u / 0x1000 == u / 0x40000 * 0x40 + u / 0x1000 % 0x40
  {
  }

  lemma RunesStep(bytes: seq<nat>, rest: seq<nat>)
    requires bytes != [] && |bytes| == Width(bytes[0])
    ensures Runes(bytes + rest) == [Tail(Lead(bytes[0]), bytes[1..])] + Runes(rest)
  {
    var s, n := bytes + rest, Width(bytes[0]);
    assert s[0] == bytes[0] && s[1..n] == bytes[1..] && s[n..] == rest;
  }

  lemma TailOfOne(high: int, b: nat)
    ensures Tail(high, []) == high && Tail(high, [b]) == high * 0x40 + (b - 0x80)
  {
    assert [b][..0] == [];
  }

  lemma TailSnoc(high: int, bytes: seq<nat>, b: nat)
    ensures Tail(high, bytes + [b]) == Tail(high, bytes) * 0x40 + (b - 0x80)
  {
    assert (bytes + [b])[..|bytes|] == bytes;
  }

  lemma Utf8IsRead(c: char)
    ensures |Utf8(c)| == Width(Utf8(c)[0]) && Tail(Lead(Utf8(c)[0]), Utf8(c)[1..]) == c as int
  {
    var u, s := c as int, Utf8(c);
    DigitsOf(u);
    if u < 0x80 {
      assert s[1..] == [];
    } else if u < 0x800 {
      assert s[1..] == [s[1]];
      TailOfOne(Lead(s[0]), s[1]);
    } else if u < 0x10000 {
      assert s[1..] == [s[1]] + [s[2]];
      TailOfOne(Lead(s[0]), s[1]);
      TailSnoc(Lead(s[0]), [s[1]], s[2]);
    } else {
      assert s[1..] == [s[1]] + [s[2]] + [s[3]];
      TailOfOne(Lead(s[0]), s[1]);
      TailSnoc(Lead(s[0]), [s[1]], s[2]);
      TailSnoc(Lead(s[0]), [s[1]] + [s[2]], s[3]);
    }
  }

  lemma RuneDecodes(c: char, rest: seq<nat>)
    ensures Runes(Utf8(c) + rest) == [c as int] + Runes(rest)
  {
    Utf8IsRead(c);
    RunesStep(Utf8(c), rest);
  }

  /** From the caller to the router: unescaping and decoding a segment gives back the argument's characters. */
  lemma {:induction false} ArgumentSurvivesUrl(s: string)
    ensures var runes := Runes(Unescape(PathEscape(s)));
            |runes| == |s| && forall i :: 0 <= i < |s| ==> runes[i] == s[i] as int
  {
    EscapeRoundTrip(s);
    BytesDecode(s);
  }

  lemma {:induction false} BytesDecode(s: string)
    ensures |Runes(Bytes(s))| == |s| && forall i :: 0 <= i < |s| ==> Runes(Bytes(s))[i] == s[i] as int
  {
    if s != "" {
      BytesDecode(s[1..]);
      RuneDecodes(s[0], Bytes(s[1..]));
    }
  }

  lemma EscapeIsBraceFree(s: string)
    ensures BraceFree(PathEscape(s))
  {
    EscapeRoundTrip(s);
    assert !InSegment('{') && !InSegment('}');
  }

  // ---------- Argument names with braces ----------

  predicate ValuesBraceFree(args: map<string, string>) { forall n :: n in args ==> BraceFree(args[n]) }

  /** What a template should become. */
  function Simultaneous(ts: seq<Token>, args: map<string, string>): Result<string> {
    if AllFilled(ts, args) then Ok(Flat(Subst(ts, args))) else Unfilled
  }

  ghost predicate AlwaysSimultaneous(args: map<string, string>) {
    forall ts, order :: IsFlat(ts) && IsOrder(order, args) ==>
      Checked(Sequential(Flat(ts), order, args)) == Simultaneous(ts, args)
  }

  /**
   An argument whose placeholder can be read as several, such as "b}{c", has the value that filling those would give,
   and all of those are given.
   */
  ghost predicate Consistent(args: map<string, string>) {
    forall n, us :: n in args && IsFlat(us) && Flat(us) == Placeholder(n) ==>
      AllFilled(us, args) && Flat(Subst(us, args)) == args[n]
  }

  lemma {:induction false} FlatConcat(a: seq<Token>, b: seq<Token>)
    ensures Flat(a + b) == Flat(a) + Flat(b)
  {
    if a == [] {
      assert a + b == b;
    } else {
      assert (a + b)[1..] == a[1..] + b;
      FlatConcat(a[1..], b);
      Regroup(Text(a[0]), Flat(a[1..]), Flat(b));
    }
  }

  /** A prefix of a flat text that ends in a close brace ends with a token. */
  lemma {:induction false} PrefixIsTokens(ts: seq<Token>, p: string) returns (k: nat)
    requires IsFlat(ts) && p <= Flat(ts) && p != "" && p[|p| - 1] == '}'
    ensures k <= |ts| && Flat(ts[..k]) == p
  {
    var t, rest := Text(ts[0]), Flat(ts[1..]);
    FlatParts(ts, 1);
    assert ts[..1] == [ts[0]];
    if |p| <= |t| {
      PrefixOfText(ts[0], rest, p);
      FlatCons(ts[0], []);
      assert [ts[0]] + [] == [ts[0]] && t + "" == t;
      k := 1;
    } else {
      var q := PastText(t, rest, p);
      k := PrefixIsTokens(ts[1..], q);
      FlatCons(ts[0], ts[1..][..k]);
      assert ts[..k + 1] == [ts[0]] + ts[1..][..k];
      k := k + 1;
    }
  }

  lemma PastText(t: string, rest: string, p: string) returns (q: string)
    requires p <= t + rest && |p| > |t|
    ensures p == t + q && q <= rest && q != "" && q[|q| - 1] == p[|p| - 1]
  {
    q := p[|t|..];
    assert forall i :: 0 <= i < |p| ==> p[i] == (t + rest)[i];
  }

  lemma PrefixOfText(t: Token, rest: string, p: string)
    requires IsFlat([t]) && p <= Text(t) + rest && p != "" && p[|p| - 1] == '}' && |p| <= |Text(t)|
    ensures p == Text(t)
  {
    assert forall i :: 0 <= i < |p| ==> p[i] == (Text(t) + rest)[i] == Text(t)[i];
    EndsAtBrace(t, |p| - 1);
  }

  lemma EndsAtBrace(t: Token, i: nat)
    requires IsFlat([t]) && i < |Text(t)| && Text(t)[i] == '}'
    ensures i == |Text(t)| - 1 && t.Hole?
  {
    assert [t][0] == t;
    assert t.Hole? ==> forall k :: 0 < k < |Text(t)| - 1 ==> Text(t)[k] == t.name[k - 1] && t.name[k - 1] in t.name;
  }

  /** The tokens mean the same: what filling gives, and whether anything is missing. */
  ghost predicate SameMeaning(ts: seq<Token>, us: seq<Token>, args: map<string, string>) {
    Flat(Subst(ts, args)) == Flat(Subst(us, args)) && (AllFilled(ts, args) <==> AllFilled(us, args))
  }

  /** No placeholders but these, and none of this name. */
  ghost predicate HolesAmong(us: seq<Token>, ts: seq<Token>, n: string) {
    forall i :: 0 <= i < |us| && us[i].Hole? ==> us[i] in ts && us[i].name != n
  }

  lemma SplitMeaning(a: seq<Token>, b: seq<Token>, args: map<string, string>)
    ensures Flat(Subst(a + b, args)) == Flat(Subst(a, args)) + Flat(Subst(b, args))
    ensures AllFilled(a + b, args) <==> AllFilled(a, args) && AllFilled(b, args)
  {
    assert Subst(a + b, args) == Subst(a, args) + Subst(b, args);
    FlatConcat(Subst(a, args), Subst(b, args));
    assert forall i :: 0 <= i < |a| ==> (a + b)[i] == a[i];
    assert forall i :: 0 <= i < |b| ==> (a + b)[|a| + i] == b[i];
  }

  /** Replacing the front by tokens of the same meaning. */
  lemma FrontMeaning(a: seq<Token>, a': seq<Token>, b: seq<Token>, b': seq<Token>, args: map<string, string>)
    requires SameMeaning(a, a', args) && SameMeaning(b, b', args)
    ensures SameMeaning(a + b, a' + b', args)
  {
    SplitMeaning(a, b, args);
    SplitMeaning(a', b', args);
  }

  lemma ReplaceAfterHole(m: string, rest: string, n: string, v: string)
    requires BraceFree(m) && !(Placeholder(n) <= Placeholder(m) + rest)
    ensures ReplaceAll(Placeholder(m) + rest, Placeholder(n), v) == Placeholder(m) + ReplaceAll(rest, Placeholder(n), v)
  {
    var s, tail := Placeholder(m) + rest, m + "}";
    assert s == ['{'] + (tail + rest) && s[1..] == tail + rest;
    ReplaceInText(tail, rest, n, v);
    assert ['{'] + (tail + ReplaceAll(rest, Placeholder(n), v)) == Placeholder(m) + ReplaceAll(rest, Placeholder(n), v);
  }

  lemma ValueMeans(us: seq<Token>, n: string, args: map<string, string>)
    requires Consistent(args) && n in args && IsFlat(us) && Flat(us) == Placeholder(n)
    ensures SameMeaning(us, [Lit(args[n])], args)
  {
    var lit := [Lit(args[n])];
    assert Subst(lit, args) == lit && Flat(lit) == args[n] + Flat(lit[1..]);
  }

  lemma ReplaceMatch(p: string, rest: string, v: string)
    requires p != ""
    ensures ReplaceAll(p + rest, p, v) == v + ReplaceAll(rest, p, v)
  {
    assert (p + rest)[|p|..] == rest;
  }

  lemma ReplaceSkips(t: Token, rest: string, n: string, v: string)
    requires IsFlat([t]) && (t.Hole? ==> !(Placeholder(n) <= Text(t) + rest))
    ensures ReplaceAll(Text(t) + rest, Placeholder(n), v) == Text(t) + ReplaceAll(rest, Placeholder(n), v)
  {
    assert [t][0] == t;
    match t
    case Lit(text) => ReplaceInText(text, rest, n, v);
    case Hole(m) => ReplaceAfterHole(m, rest, n, v);
  }

  /** What one ReplaceAll makes of flat tokens: flat ones of the same meaning without that placeholder. */
  ghost predicate Replaced(ts: seq<Token>, us: seq<Token>, n: string, args: map<string, string>)
    requires n in args
  {
    && IsFlat(us) && Flat(us) == ReplaceAll(Flat(ts), Placeholder(n), args[n])
    && SameMeaning(ts, us, args) && HolesAmong(us, ts, n)
  }

  lemma FlatCons(t: Token, rest: seq<Token>)
    ensures Flat([t] + rest) == Text(t) + Flat(rest)
  {
    assert ([t] + rest)[1..] == rest;
  }

  lemma FlatFront(t: Token, rest: seq<Token>)
    requires IsFlat([t]) && IsFlat(rest)
    ensures IsFlat([t] + rest)
  {
    assert [t][0] == t;
  }

  lemma SkipText(ts: seq<Token>, rest: seq<Token>, n: string, v: string)
    requires ts != [] && IsFlat([ts[0]]) && Flat(rest) == ReplaceAll(Flat(ts[1..]), Placeholder(n), v)
    requires ts[0].Hole? ==> !(Placeholder(n) <= Flat(ts))
    ensures Flat([ts[0]] + rest) == ReplaceAll(Flat(ts), Placeholder(n), v)
  {
    FlatCons(ts[0], rest);
    ReplaceSkips(ts[0], Flat(ts[1..]), n, v);
  }

  lemma SkipMeaning(ts: seq<Token>, rest: seq<Token>, args: map<string, string>)
    requires ts != [] && SameMeaning(ts[1..], rest, args)
    ensures SameMeaning(ts, [ts[0]] + rest, args)
  {
    FrontMeaning([ts[0]], [ts[0]], ts[1..], rest, args);
    assert ts == [ts[0]] + ts[1..];
  }

  lemma HoleMatches(m: string, rest: string)
    ensures Placeholder(m) <= Placeholder(m) + rest
  {
  }

  lemma SkipHoles(ts: seq<Token>, rest: seq<Token>, n: string)
    requires ts != [] && HolesAmong(rest, ts[1..], n)
    requires ts[0].Hole? ==> !(Placeholder(n) <= Flat(ts))
    ensures HolesAmong([ts[0]] + rest, ts, n)
  {
    var us := [ts[0]] + rest;
    if ts[0].Hole? {
      HoleMatches(ts[0].name, Flat(ts[1..]));
    }
    forall i | 0 <= i < |us| && us[i].Hole? ensures us[i] in ts && us[i].name != n {
      if i > 0 {
        assert us[i] == rest[i - 1] && rest[i - 1] in ts[1..];
      }
    }
  }

  lemma MatchText(ts: seq<Token>, k: nat, rest: seq<Token>, n: string, v: string)
    requires k <= |ts| && Flat(ts[..k]) == Placeholder(n) && Flat(rest) == ReplaceAll(Flat(ts[k..]), Placeholder(n), v)
    ensures Flat([Lit(v)] + rest) == ReplaceAll(Flat(ts), Placeholder(n), v)
  {
    FlatSplit(ts, k);
    ReplaceMatch(Placeholder(n), Flat(ts[k..]), v);
    FlatCons(Lit(v), rest);
  }

  lemma FlatSplit(ts: seq<Token>, k: nat)
    requires k <= |ts|
    ensures Flat(ts) == Flat(ts[..k]) + Flat(ts[k..])
  {
    SplitAt(ts, k);
    FlatConcat(ts[..k], ts[k..]);
  }

  lemma MatchMeaning(ts: seq<Token>, k: nat, rest: seq<Token>, n: string, args: map<string, string>)
    requires k <= |ts| && n in args
    requires SameMeaning(ts[..k], [Lit(args[n])], args) && SameMeaning(ts[k..], rest, args)
    ensures SameMeaning(ts, [Lit(args[n])] + rest, args)
  {
    FrontMeaning(ts[..k], [Lit(args[n])], ts[k..], rest, args);
    assert ts == ts[..k] + ts[k..];
  }

  lemma MatchHoles(ts: seq<Token>, k: nat, rest: seq<Token>, n: string, v: string)
    requires k <= |ts| && HolesAmong(rest, ts[k..], n)
    ensures HolesAmong([Lit(v)] + rest, ts, n)
  {
    var us := [Lit(v)] + rest;
    forall i | 0 <= i < |us| && us[i].Hole? ensures us[i] in ts && us[i].name != n {
      assert us[i] == rest[i - 1] && rest[i - 1] in ts[k..];
    }
  }

  lemma FlatParts(ts: seq<Token>, k: nat)
    requires IsFlat(ts) && k <= |ts|
    ensures IsFlat(ts[..k]) && IsFlat(ts[k..])
  {
  }

  /** One ReplaceAll keeps the meaning, wherever the placeholder matches. */
  lemma {:induction false} ReplaceKeepsMeaning(ts: seq<Token>, n: string, args: map<string, string>)
    returns (us: seq<Token>)
    requires IsFlat(ts) && ValuesBraceFree(args) && Consistent(args) && n in args
    ensures Replaced(ts, us, n, args)
    decreases |ts|
  {
    var v := args[n];
    if ts == [] {
      us := [];
    } else if ts[0].Lit? || !(Placeholder(n) <= Flat(ts)) {
      FlatParts(ts, 1);
      assert ts[..1] == [ts[0]];
      var rest := ReplaceKeepsMeaning(ts[1..], n, args);
      us := [ts[0]] + rest;
      FlatFront(ts[0], rest);
      SkipText(ts, rest, n, v);
      SkipMeaning(ts, rest, args);
      SkipHoles(ts, rest, n);
    } else {
      var k := PrefixIsTokens(ts, Placeholder(n));
      FlatParts(ts, k);
      assert k > 0 by {
        assert ts[..0] == [];
      }
      var rest := ReplaceKeepsMeaning(ts[k..], n, args);
      us := [Lit(v)] + rest;
      FlatFront(Lit(v), rest);
      MatchText(ts, k, rest, n, v);
      ValueMeans(ts[..k], n, args);
      MatchMeaning(ts, k, rest, n, args);
      MatchHoles(ts, k, rest, n, v);
    }
  }

  ghost predicate NoHoles(us: seq<Token>, names: seq<string>) {
    forall i :: 0 <= i < |us| && us[i].Hole? ==> us[i].name !in names
  }

  lemma FewerHoles(before: seq<Token>, us: seq<Token>, init: seq<string>, n: string)
    requires NoHoles(before, init) && HolesAmong(us, before, n)
    ensures NoHoles(us, init + [n])
  {
    forall i | 0 <= i < |us| && us[i].Hole? ensures us[i].name !in init + [n] {
      assert us[i] in before;
      var j :| 0 <= j < |before| && before[j] == us[i];
      assert before[j].name !in init;
    }
  }

  /** Replacing one name after the other keeps the meaning, and leaves no placeholder of those names. */
  lemma {:induction false} SequentialKeepsMeaning(ts: seq<Token>, order: seq<string>, args: map<string, string>)
    returns (us: seq<Token>)
    requires IsFlat(ts) && ValuesBraceFree(args) && Consistent(args) && forall n :: n in order ==> n in args
    ensures IsFlat(us) && Flat(us) == Sequential(Flat(ts), order, args)
    ensures SameMeaning(ts, us, args) && NoHoles(us, order)
  {
    if order == [] {
      us := ts;
    } else {
      var init, n := order[..|order| - 1], order[|order| - 1];
      assert n in order;
      var before := SequentialKeepsMeaning(ts, init, args);
      us := ReplaceKeepsMeaning(before, n, args);
      SequentialLast(Flat(ts), order, args);
      SameThrough(ts, before, us, args);
      FewerHoles(before, us, init, n);
      InitAndLast(order);
    }
  }

  lemma SequentialLast(s: string, order: seq<string>, args: map<string, string>)
    requires order != [] && order[|order| - 1] in args
    ensures var init, n := order[..|order| - 1], order[|order| - 1];
            Sequential(s, order, args) == ReplaceAll(Sequential(s, init, args), Placeholder(n), args[n])
  {
  }

  lemma SameThrough(a: seq<Token>, b: seq<Token>, c: seq<Token>, args: map<string, string>)
    requires SameMeaning(a, b, args) && SameMeaning(b, c, args)
    ensures SameMeaning(a, c, args)
  {
  }

  lemma ConsistentIsSimultaneous(ts: seq<Token>, order: seq<string>, args: map<string, string>)
    requires IsFlat(ts) && ValuesBraceFree(args) && Consistent(args) && IsOrder(order, args)
    ensures Checked(Sequential(Flat(ts), order, args)) == Simultaneous(ts, args)
  {
    var us := SequentialKeepsMeaning(ts, order, args);
    FlatBraceFree(us);
    if AllFilled(us, args) {
      assert forall i :: 0 <= i < |us| ==> us[i].Lit?;
      assert Subst(us, args) == us;
    }
  }

  lemma {:induction false} SequentialConcat(s: string, a: seq<string>, b: seq<string>, args: map<string, string>)
    ensures Sequential(s, a + b, args) == Sequential(Sequential(s, a, args), b, args)
  {
    if b == [] {
      assert a + b == a;
    } else {
      assert (a + b)[..|a + b| - 1] == a + b[..|b| - 1];
      SequentialConcat(s, a, b[..|b| - 1], args);
    }
  }

  lemma {:induction false} BraceFreeIsDone(s: string, order: seq<string>, args: map<string, string>)
    requires BraceFree(s)
    ensures Sequential(s, order, args) == s
  {
    if order != [] {
      var n := order[|order| - 1];
      BraceFreeIsDone(s, order[..|order| - 1], args);
      if n in args {
        ReplaceInText(s, "", n, args[n]);
        assert s + "" == s;
      }
    }
  }

  /** The names of a set, each once. */
  lemma {:induction false} NamesListed(names: set<string>) returns (order: seq<string>)
    ensures forall i, j :: 0 <= i < j < |order| ==> order[i] != order[j]
    ensures forall n :: n in order <==> n in names
    decreases |names|
  {
    if names == {} {
      order := [];
    } else {
      var n :| n in names;
      order := NamesListed(names - {n});
      order := order + [n];
    }
  }

  /** With an argument replaced first, its own placeholder becomes its value. */
  lemma FirstWins(n: string, args: map<string, string>) returns (order: seq<string>)
    requires n in args && BraceFree(args[n])
    ensures IsOrder(order, args) && Sequential(Placeholder(n), order, args) == args[n]
  {
    var rest := NamesListed(args.Keys - {n});
    order := [n] + rest;
    forall m ensures m in order <==> m in args {
      assert m in order <==> m == n || m in rest;
    }
    SequentialConcat(Placeholder(n), [n], rest, args);
    assert [n][..0] == [] && Sequential(Placeholder(n), [], args) == Placeholder(n);
    ReplaceMatch(Placeholder(n), "", args[n]);
    assert Placeholder(n) + "" == Placeholder(n) && args[n] + "" == args[n];
    BraceFreeIsDone(args[n], rest, args);
  }

  /**
   Exactly when arguments with any names and brace-free values fill every flat template simultaneously in every order,
   and report a missing one: when each whose placeholder reads as several has the value those have together.
   */
  lemma NamesAreHarmlessWhen(args: map<string, string>)
    requires ValuesBraceFree(args)
    ensures AlwaysSimultaneous(args) <==> Consistent(args)
  {
    if Consistent(args) {
      forall ts, order | IsFlat(ts) && IsOrder(order, args)
        ensures Checked(Sequential(Flat(ts), order, args)) == Simultaneous(ts, args)
      {
        ConsistentIsSimultaneous(ts, order, args);
      }
    }
    if AlwaysSimultaneous(args) {
      forall n, us | n in args && IsFlat(us) && Flat(us) == Placeholder(n)
        ensures AllFilled(us, args) && Flat(Subst(us, args)) == args[n]
      {
        var order := FirstWins(n, args);
        assert Checked(Sequential(Flat(us), order, args)) == Simultaneous(us, args);
      }
    }
  }

  lemma EscapedValues(args: map<string, string>)
    ensures ValuesBraceFree(Escaped(args))
  {
    forall n | n in args ensures BraceFree(Escaped(args)[n]) {
      EscapeIsBraceFree(args[n]);
    }
  }

  /** renderURL with any argument names and values: right for every flat template in every order exactly then. */
  lemma UrlIsAlwaysSimultaneousWhen(args: map<string, string>)
    ensures AlwaysSimultaneous(Escaped(args)) <==> Consistent(Escaped(args))
  {
    EscapedValues(args);
    NamesAreHarmlessWhen(Escaped(args));
  }

  /** Names without braces are always harmless. */
  lemma PlainNamesAreHarmless(args: map<string, string>)
    requires NamesBraceFree(args) && ValuesBraceFree(args)
    ensures Consistent(args)
  {
    forall ts, order | IsFlat(ts) && IsOrder(order, args)
      ensures Checked(Sequential(Flat(ts), order, args)) == Simultaneous(ts, args)
    {
      FillingIsSimultaneousWhen(ts, args, order);
    }
    NamesAreHarmlessWhen(args);
  }

  /** Three arguments, one named "b}{c", for which the URL depends on the map order. */
  lemma BracedNameDependsOnOrder()
    ensures var args := map["b" := "1", "c" := "2", "b}{c" := "3"];
            ValuesBraceFree(args) && !Consistent(args) && !AlwaysSimultaneous(args)
  {
    var args := map["b" := "1", "c" := "2", "b}{c" := "3"];
    var us := [Hole("b"), Hole("c")];
    assert us[1..] == [Hole("c")] && us[1..][1..] == [];
    assert Flat(us) == Placeholder("b") + (Placeholder("c") + "");
    assert Flat(us) == Placeholder("b}{c");
    var filled := [Lit("1"), Lit("2")];
    assert Subst(us, args) == filled;
    assert filled[1..] == [Lit("2")] && filled[1..][1..] == [];
    assert Flat(filled) == "12";
    NamesAreHarmlessWhen(args);
  }

  // ---------- Positional shell arguments ----------

  function IndexByte(s: string, c: char): (i: int)
    ensures -1 <= i < |s|
    ensures i < 0 ==> c !in s
    ensures i >= 0 ==> s[i] == c && c !in s[..i]
  {
    if s == "" then -1
    else if s[0] == c then 0
    else
      var i := IndexByte(s[1..], c);
      if i < 0 then -1
      else
        assert s[..i + 1] == [s[0]] + s[1..][..i];
        i + 1
  }

  function Decimal(n: nat): string {
    if n < 10 then ['0' + n as char] else Decimal(n / 10) + ['0' + (n % 10) as char]
  }

  function Opens(s: string): nat {
    if s == "" then 0 else (if s[0] == '{' then 1 else 0) + Opens(s[1..])
  }

  lemma {:induction false} OpensConcat(a: string, b: string)
    ensures Opens(a + b) == Opens(a) + Opens(b)
  {
    if a == "" {
      assert a + b == b;
    } else {
      assert (a + b)[1..] == a[1..] + b;
      OpensConcat(a[1..], b);
    }
  }

  lemma {:induction false} OpensNone(s: string)
    requires '{' !in s
    ensures Opens(s) == 0
  {
    if s != "" {
      OpensNone(s[1..]);
    }
  }

  lemma {:induction false} DecimalIsBraceFree(n: nat)
    ensures BraceFree(Decimal(n))
  {
    if n >= 10 {
      DecimalIsBraceFree(n / 10);
    }
  }

  function DecimalValue(s: string): nat {
    if s == "" then 0 else DecimalValue(s[..|s| - 1]) * 10 + HexValue(s[|s| - 1])
  }

  /** The number printed after the dollar sign is the placeholder's number. */
  lemma {:induction false} DecimalPrints(n: nat)
    ensures Decimal(n) != "" && forall c :: c in Decimal(n) ==> '0' <= c <= '9'
    ensures DecimalValue(Decimal(n)) == n
  {
    if n >= 10 {
      DecimalPrints(n / 10);
      assert Decimal(n)[..|Decimal(n)| - 1] == Decimal(n / 10);
    } else {
      assert Decimal(n)[..0] == "";
    }
  }

  /** One round strictly lowers the number of open braces. */
  lemma RoundLowersOpens(s: string, open: nat, end: nat, number: nat)
    requires open <= end < |s| && s[open] == '{'
    ensures Opens(s[..open] + ("$" + Decimal(number)) + s[end + 1..]) < Opens(s)
  {
    var middle := s[open..end + 1];
    DecimalIsBraceFree(number);
    OpensNone("$" + Decimal(number));
    OpensConcat(s[..open] + ("$" + Decimal(number)), s[end + 1..]);
    OpensConcat(s[..open], "$" + Decimal(number));
    OpensConcat(s[..open] + middle, s[end + 1..]);
    OpensConcat(s[..open], middle);
    assert s == s[..open] + middle + s[end + 1..];
  }

  /** The k-th placeholder becomes `$k`; everything else stays. */
  function Numbered(ts: seq<Token>, k: nat): seq<Token> {
    if ts == [] then []
    else if ts[0].Hole? then [Lit("$" + Decimal(k))] + Numbered(ts[1..], k + 1)
    else [ts[0]] + Numbered(ts[1..], k)
  }

  /** The i-th token: a placeholder becomes a dollar sign and one more than the placeholders before it. */
  lemma {:induction false} NumberedAt(ts: seq<Token>, k: nat, i: nat)
    requires i < |ts|
    ensures |Numbered(ts, k)| == |ts|
    ensures Numbered(ts, k)[i] == if ts[i].Hole? then Lit("$" + Decimal(k + Holes(ts[..i]))) else ts[i]
  {
    var next := if ts[0].Hole? then k + 1 else k;
    if i > 0 {
      NumberedAt(ts[1..], next, i - 1);
      assert ts[..i][1..] == ts[1..][..i - 1];
    } else if |ts| > 1 {
      NumberedAt(ts[1..], next, 0);
    }
  }

  method PositionalUrl(rawURL: string) returns (r: string)
    ensures forall i, j :: 0 <= i < j < |r| && r[i] == '{' ==> r[j] != '}'
    ensures forall ts :: IsFlat(ts) && Flat(ts) == rawURL ==> r == Flat(Numbered(ts, 1))
  {
    r := rawURL;
    var i := 1;
    forall ts | IsFlat(ts) && Flat(ts) == rawURL ensures Progress(ts, r, i) {
      NothingNumbered(ts);
    }
    while true
      invariant i >= 1
      invariant forall ts :: IsFlat(ts) && Flat(ts) == rawURL ==> Progress(ts, r, i)
      decreases Opens(r)
    {
      var open := IndexByte(r, '{');
      if open < 0 {
        assert '{' !in r;
        forall ts | IsFlat(ts) && Flat(ts) == rawURL ensures r == Flat(Numbered(ts, 1)) {
          AllNumbered(ts, r, i);
        }
        return;
      }
      var end := IndexByte(r[open..], '}');
      if end < 0 {
        assert '{' !in r[..open] && '}' !in r[open..];
        forall i, j | 0 <= i < j < |r| && r[i] == '{' ensures r[j] != '}' {
          assert i >= open;
          assert r[open..][j - open] == r[j];
        }
        forall ts | IsFlat(ts) && Flat(ts) == rawURL ensures r == Flat(Numbered(ts, 1)) {
          AllNumbered(ts, r, i);
        }
        return;
      }
      RoundLowersOpens(r, open, open + end, i);
      forall ts | IsFlat(ts) && Flat(ts) == rawURL
        ensures Progress(ts, r[..open] + ("$" + Decimal(i)) + r[open + end + 1..], i + 1)
      {
        NumberNext(ts, r, i, open, end);
      }
      r := r[..open] + ("$" + Decimal(i)) + r[open + end + 1..];
      i := i + 1;
    }
  }

  /** After i-1 rounds: some prefix of the template is numbered up to i, the rest is untouched. */
  ghost predicate Progress(ts: seq<Token>, r: string, i: nat) {
    exists done :: 0 <= done <= |ts| && NumberedTo(ts, r, i, done)
  }

  ghost predicate NumberedTo(ts: seq<Token>, r: string, i: nat, done: nat)
    requires done <= |ts|
  {
    && i == 1 + Holes(ts[..done])
    && r == Flat(Numbered(ts[..done], 1)) + Flat(ts[done..])
  }

  function Holes(ts: seq<Token>): nat {
    if ts == [] then 0 else (if ts[0].Hole? then 1 else 0) + Holes(ts[1..])
  }

  lemma NothingNumbered(ts: seq<Token>)
    ensures Progress(ts, Flat(ts), 1)
  {
    assert ts[..0] == [] && ts[0..] == ts;
    assert Flat(ts) == "" + Flat(ts);
    assert NumberedTo(ts, Flat(ts), 1, 0);
  }

  lemma {:induction false} NumberedSnoc(ts: seq<Token>, t: Token, k: nat)
    ensures Numbered(ts + [t], k) == Numbered(ts, k) + [NumberedToken(t, k + Holes(ts))]
    ensures Holes(ts + [t]) == Holes(ts) + if t.Hole? then 1 else 0
  {
    if ts == [] {
      assert [] + [t] == [t];
    } else {
      var next := if ts[0].Hole? then k + 1 else k;
      NumberedSnoc(ts[1..], t, next);
      NumberedHead(ts + [t], k);
      NumberedHead(ts, k);
      assert (ts + [t])[1..] == ts[1..] + [t];
      assert next + Holes(ts[1..]) == k + Holes(ts);
      Regroup([NumberedToken(ts[0], k)], Numbered(ts[1..], next), [NumberedToken(t, k + Holes(ts))]);
    }
  }

  function NumberedToken(t: Token, k: nat): Token { if t.Hole? then Lit("$" + Decimal(k)) else t }

  lemma NumberedHead(ts: seq<Token>, k: nat)
    requires ts != []
    ensures Numbered(ts, k) == [NumberedToken(ts[0], k)] + Numbered(ts[1..], if ts[0].Hole? then k + 1 else k)
    ensures Holes(ts) == Holes(ts[1..]) + if ts[0].Hole? then 1 else 0
  {
  }

  lemma {:induction false} FlatSnoc(ts: seq<Token>, t: Token)
    ensures Flat(ts + [t]) == Flat(ts) + Text(t)
  {
    if ts == [] {
      assert [] + [t] == [t];
    } else {
      assert (ts + [t])[1..] == ts[1..] + [t];
      FlatSnoc(ts[1..], t);
    }
  }

  lemma {:induction false} NumberedIsBraceFree(ts: seq<Token>, k: nat)
    requires IsFlat(ts)
    ensures BraceFree(Flat(Numbered(ts, k)))
  {
    if ts != [] {
      DecimalIsBraceFree(k);
      NumberedIsBraceFree(ts[1..], if ts[0].Hole? then k + 1 else k);
    }
  }

  /** A literal at the front of the untouched rest counts as done already. */
  lemma {:induction false} ToNextHole(ts: seq<Token>, r: string, i: nat, done: nat) returns (next: nat)
    requires IsFlat(ts) && done <= |ts| && NumberedTo(ts, r, i, done)
    ensures next <= |ts| && NumberedTo(ts, r, i, next) && (next < |ts| ==> ts[next].Hole?)
    decreases |ts| - done
  {
    next := done;
    if done < |ts| && ts[done].Lit? {
      StepLit(ts, r, i, done);
      next := ToNextHole(ts, r, i, done + 1);
    }
  }

  lemma StepLit(ts: seq<Token>, r: string, i: nat, done: nat)
    requires done < |ts| && ts[done].Lit? && NumberedTo(ts, r, i, done)
    ensures NumberedTo(ts, r, i, done + 1)
  {
    var front, t, rest := ts[..done], ts[done], ts[done + 1..];
    assert ts[..done + 1] == front + [t];
    NumberedSnoc(front, t, 1);
    assert NumberedToken(t, 1 + Holes(front)) == t;
    FlatSnoc(Numbered(front, 1), t);
    FlatHead(ts[done..]);
    assert ts[done..][1..] == rest;
    Regroup(Flat(Numbered(front, 1)), Text(t), Flat(rest));
  }

  lemma FlatHead(ts: seq<Token>)
    requires ts != []
    ensures Flat(ts) == Text(ts[0]) + Flat(ts[1..])
  {
  }

  lemma FirstIndex(s: string, c: char, i: nat)
    requires i < |s| && s[i] == c && c !in s[..i]
    ensures IndexByte(s, c) == i
  {
    var j := IndexByte(s, c);
    assert c in s;
    forall k | 0 <= k < i ensures s[k] != c {
      assert s[..i][k] == s[k];
    }
    forall k | 0 <= k < j ensures s[k] != c {
      assert s[..j][k] == s[k];
    }
  }

  /** A string that is brace-free text followed by a placeholder: where its first braces are. */
  lemma BracesAre(before: string, name: string, after: string)
    requires BraceFree(before) && BraceFree(name)
    ensures var r := before + Placeholder(name) + after;
            && IndexByte(r, '{') == |before| && IndexByte(r[|before|..], '}') == |name| + 1
            && r[..|before|] == before && r[|before| + |name| + 2..] == after
  {
    var r := before + Placeholder(name) + after;
    assert r[..|before|] == before;
    FirstIndex(r, '{', |before|);
    var rest := r[|before|..];
    assert rest == Placeholder(name) + after;
    assert rest[..|name| + 1] == "{" + name;
    FirstIndex(rest, '}', |name| + 1);
  }

  /** Where a partly numbered flat template stands: fully numbered and brace-free, or at its next placeholder. */
  lemma Front(ts: seq<Token>, r: string, i: nat) returns (next: nat)
    requires IsFlat(ts) && Progress(ts, r, i)
    ensures next <= |ts| && NumberedTo(ts, r, i, next)
    ensures next == |ts| ==> r == Flat(Numbered(ts, 1)) && '{' !in r
    ensures next < |ts| ==>
              var before := Flat(Numbered(ts[..next], 1));
              && ts[next].Hole? && BraceFree(before) && BraceFree(ts[next].name)
              && r == before + Placeholder(ts[next].name) + Flat(ts[next + 1..])
  {
    var done :| 0 <= done <= |ts| && NumberedTo(ts, r, i, done);
    next := ToNextHole(ts, r, i, done);
    NumberedIsBraceFree(ts[..next], 1);
    if next == |ts| {
      assert ts[..next] == ts && ts[next..] == [];
      assert r == Flat(Numbered(ts, 1)) + "";
    } else {
      assert ts[next..][1..] == ts[next + 1..];
      var before := Flat(Numbered(ts[..next], 1));
      assert r == before + (Placeholder(ts[next].name) + Flat(ts[next + 1..]));
    }
  }

  lemma AllNumbered(ts: seq<Token>, r: string, i: nat)
    requires IsFlat(ts) && Progress(ts, r, i) && (IndexByte(r, '{') < 0 || IndexByte(r[IndexByte(r, '{')..], '}') < 0)
    ensures r == Flat(Numbered(ts, 1))
  {
    var next := Front(ts, r, i);
    if next < |ts| {
      BracesAre(Flat(Numbered(ts[..next], 1)), ts[next].name, Flat(ts[next + 1..]));
      assert false;
    }
  }

  lemma NumberNext(ts: seq<Token>, r: string, i: nat, open: nat, end: nat)
    requires IsFlat(ts) && Progress(ts, r, i)
    requires IndexByte(r, '{') == open && IndexByte(r[open..], '}') == end
    ensures Progress(ts, r[..open] + ("$" + Decimal(i)) + r[open + end + 1..], i + 1)
  {
    var next := Front(ts, r, i);
    assert next < |ts|;
    BracesAre(Flat(Numbered(ts[..next], 1)), ts[next].name, Flat(ts[next + 1..]));
    NumberOne(ts, i, next);
  }

  /** Numbering one more placeholder. */
  lemma NumberOne(ts: seq<Token>, i: nat, next: nat)
    requires next < |ts| && ts[next].Hole? && i == 1 + Holes(ts[..next])
    ensures Progress(ts, Flat(Numbered(ts[..next], 1)) + ("$" + Decimal(i)) + Flat(ts[next + 1..]), i + 1)
  {
    var before, mark := Flat(Numbered(ts[..next], 1)), "$" + Decimal(i);
    assert ts[..next + 1] == ts[..next] + [ts[next]];
    NumberedSnoc(ts[..next], ts[next], 1);
    FlatSnoc(Numbered(ts[..next], 1), Lit(mark));
    assert NumberedTo(ts, before + mark + Flat(ts[next + 1..]), i + 1, next + 1);
  }
}
