/** The pieces of the JavaScript string library the scaffolder leans on:
    the `[a-z]`, `[A-Z]` and `\s` character classes, the ASCII part of
    `toLowerCase`, `includes`, `startsWith`, `endsWith`, a literal global
    `replace`, and the decimal rendering of an integer. */
module Text {

  datatype Option<T> = None | Some(value: T)

  /** The class `[A-Z]`. */
  predicate IsUpper(c: char) { 'A' <= c <= 'Z' }

  /** The class `[a-z]`. */
  predicate IsLower(c: char) { 'a' <= c <= 'z' }

  /** The class `[0-9]`. */
  predicate IsDigit(c: char) { '0' <= c <= '9' }

  /** The class `\s` of JavaScript regular expressions: white space and line
      terminators. `String.prototype.trim` and `parseInt` skip the same set. */
  predicate IsSpace(c: char) {
    || c == ' ' || c == '\t' || c == '\n' || c == '\r' || c == '\U{b}' || c == '\U{c}'
    || c == '\U{a0}' || c == '\U{1680}' || ('\U{2000}' <= c <= '\U{200a}')
    || c == '\U{2028}' || c == '\U{2029}' || c == '\U{202f}' || c == '\U{205f}'
    || c == '\U{3000}' || c == '\U{feff}'
  }

  /** `toLowerCase` on one character, restricted to ASCII. */
  function ToLower(c: char): (r: char)
    ensures !IsUpper(r)
    ensures IsUpper(c) ==> IsLower(r)
    ensures !IsUpper(c) ==> r == c
  {
    if IsUpper(c) then (c as int + 32) as char else c
  }

  /** `s.toLowerCase()`, restricted to ASCII. */
  function Lower(s: string): string {
    seq(|s|, i requires 0 <= i < |s| => ToLower(s[i]))
  }

  /** `s.toLowerCase() === s` exactly when `s` has no letter in `[A-Z]`. */
  lemma LowerFixesExactlyUppercaseFree(s: string)
    ensures Lower(s) == s <==> forall i :: 0 <= i < |s| ==> !IsUpper(s[i])
  {
    if Lower(s) == s {
      forall i | 0 <= i < |s| ensures !IsUpper(s[i]) {
        assert Lower(s)[i] == ToLower(s[i]);
      }
    }
  }

  /** Lowercasing works character by character. */
  lemma LowerConcat(a: string, b: string)
    ensures Lower(a + b) == Lower(a) + Lower(b)
  {
    assert forall i :: 0 <= i < |a| ==> (a + b)[i] == a[i];
    assert forall i :: |a| <= i < |a + b| ==> (a + b)[i] == b[i - |a|];
  }

  /** `t` occurs in `s` starting at index `p`. */
  predicate OccursAt(s: string, t: string, p: int) {
    0 <= p && p + |t| <= |s| && s[p..p + |t|] == t
  }

  /** `s.includes(t)`. */
  predicate Contains(s: string, t: string) {
    exists p :: 0 <= p <= |s| - |t| && OccursAt(s, t, p)
  }

  /** `s.endsWith(t)`. */
  predicate EndsWith(s: string, t: string) {
    |t| <= |s| && s[|s| - |t|..] == t
  }

  /** One differing character rules out an occurrence. */
  lemma MismatchAt(s: string, u: string, p: int, j: int)
    requires 0 <= j < |u| && 0 <= p && p + |u| <= |s| && s[p + j] != u[j]
    ensures !OccursAt(s, u, p)
  {
    assert s[p..p + |u|][j] == s[p + j];
  }

  /** An occurrence inside a part is an occurrence inside the whole. */
  lemma ContainsInContext(a: string, s: string, b: string, t: string)
    requires Contains(s, t)
    ensures Contains(a + s + b, t)
  {
    var p :| 0 <= p <= |s| - |t| && OccursAt(s, t, p);
    var x := a + s + b;
    assert x[|a| + p..|a| + p + |t|] == s[p..p + |t|];
    assert OccursAt(x, t, |a| + p);
  }

  /** An occurrence that starts after a prefix `l` is an occurrence in the rest. */
  lemma OccurrenceAfterPrefix(l: string, s: string, t: string, p: int)
    requires |l| <= p
    ensures OccursAt(l + s, t, p) <==> OccursAt(s, t, p - |l|)
  {
    if p + |t| <= |l + s| {
      assert (l + s)[p..p + |t|] == s[p - |l|..p - |l| + |t|];
    }
  }

  /** An occurrence that ends inside a prefix `l` stays one whatever follows `l`. */
  lemma OccurrenceInPrefix(l: string, s: string, s': string, t: string, p: int)
    requires 0 <= p && p + |t| <= |l| && OccursAt(l + s, t, p)
    ensures OccursAt(l + s', t, p)
  {
    assert (l + s)[p..p + |t|] == l[p..p + |t|] == (l + s')[p..p + |t|];
  }

  /** A string free of `t` has suffixes free of `t`. */
  lemma NotContainsSuffix(s: string, k: nat, t: string)
    requires k <= |s|
    requires !Contains(s, t)
    ensures !Contains(s[k..], t)
  {
    if Contains(s[k..], t) {
      var p :| 0 <= p <= |s[k..]| - |t| && OccursAt(s[k..], t, p);
      assert s[k..][p..p + |t|] == s[k + p..k + p + |t|];
      assert OccursAt(s, t, k + p);
    }
  }

  /** `s.replace(new RegExp(t, "g"), v)` where `t` is matched literally and `v`
      has no `$` pattern: the leftmost occurrence is replaced, the scan resumes
      right after it, so occurrences never overlap. */
  function ReplaceAll(s: string, t: string, v: string): (r: string)
    requires t != []
    ensures v == t ==> r == s
    decreases |s|
  {
    if |s| < |t| then s
    else if s[..|t|] == t then v + ReplaceAll(s[|t|..], t, v)
    else [s[0]] + ReplaceAll(s[1..], t, v)
  }

  /** Content without the token comes back unchanged. */
  lemma {:induction false} ReplaceAllWithoutToken(s: string, t: string, v: string)
    requires t != []
    requires !Contains(s, t)
    ensures ReplaceAll(s, t, v) == s
    decreases |s|
  {
    if |s| >= |t| {
      assert !OccursAt(s, t, 0);
      NotContainsSuffix(s, 1, t);
      ReplaceAllWithoutToken(s[1..], t, v);
    }
  }

  /** A text that cannot start a token is copied through: the scan only
      finds matches that begin with the first character of `t`. */
  lemma {:induction false} ReplaceAllSkipsPrefix(a: string, s: string, t: string, v: string)
    requires t != []
    requires forall i :: 0 <= i < |a| ==> a[i] != t[0]
    ensures ReplaceAll(a + s, t, v) == a + ReplaceAll(s, t, v)
    decreases |a|
  {
    if a != [] {
      var x := a + s;
      if |x| < |t| {
        assert ReplaceAll(s, t, v) == s;
      } else {
        assert x[..|t|][0] == a[0] != t[0];
        assert x[1..] == a[1..] + s;
        ReplaceAllSkipsPrefix(a[1..], s, t, v);
        assert ReplaceAll(x, t, v) == [a[0]] + (a[1..] + ReplaceAll(s, t, v));
        assert [a[0]] + a[1..] == a;
      }
    } else {
      assert a + s == s;
    }
  }

  /** No brace `{` or `}` in `v`. */
  predicate BraceFree(v: string) {
    forall i :: 0 <= i < |v| ==> v[i] != '{' && v[i] != '}'
  }

  lemma BraceFreeConcat(a: string, b: string)
    requires BraceFree(a) && BraceFree(b)
    ensures BraceFree(a + b)
  {
    forall i | 0 <= i < |a + b| ensures (a + b)[i] != '{' && (a + b)[i] != '}' {
      if i < |a| { assert (a + b)[i] == a[i]; } else { assert (a + b)[i] == b[i - |a|]; }
    }
  }

  lemma BraceFreeSuffix(s: string, k: nat)
    requires BraceFree(s) && k <= |s|
    ensures BraceFree(s[k..])
  {
    forall i | 0 <= i < |s| - k ensures s[k..][i] != '{' && s[k..][i] != '}' {
      assert s[k..][i] == s[k + i];
    }
  }

  /** `u` begins with `{` and ends with `}`. */
  predicate Delimited(u: string) {
    |u| >= 2 && u[0] == '{' && u[|u| - 1] == '}'
  }

  /** Some character of `v` does not occur in `u`. */
  predicate HasCharOutside(v: string, u: string) {
    exists i :: 0 <= i < |v| && v[i] !in u
  }

  /** An inserted value `v` cannot take part in an occurrence of the
      brace-delimited token `u`: it holds no brace and some character that
      `u` lacks. */
  predicate Inert(v: string, u: string) {
    Delimited(u) && BraceFree(v) && HasCharOutside(v, u)
  }

  /** No occurrence of `u` starts in `x` before index `n`. */
  predicate ClearBefore(x: string, u: string, n: int) {
    forall p :: 0 <= p < n ==> !OccursAt(x, u, p)
  }

  /** `u` is the token replaced, or it does not occur in `s`. */
  predicate ReplacedOrAbsent(s: string, t: string, u: string) {
    u == t || !Contains(s, u)
  }

  /** An inert value cannot take part in an occurrence: such an occurrence
      would start or end inside `v`, or contain all of it. */
  lemma NoOccurrenceOverValue(l: string, v: string, y: string, u: string, p: int)
    requires Inert(v, u)
    requires p < |l| + |v| && |l| < p + |u|
    ensures !OccursAt(l + v + y, u, p)
  {
    var x := l + v + y;
    if 0 <= p && p + |u| <= |x| {
      var w := x[p..p + |u|];
      if p >= |l| {
        assert w[0] == x[p] == v[p - |l|];
        assert w[0] != u[0];
      } else if p + |u| <= |l| + |v| {
        assert w[|u| - 1] == x[p + |u| - 1] == v[p + |u| - 1 - |l|];
        assert w[|u| - 1] != u[|u| - 1];
      } else {
        var i :| 0 <= i < |v| && v[i] !in u;
        var j := |l| + i - p;
        assert w[j] == x[|l| + i] == v[i];
        assert u[j] in u;
        assert w[j] != u[j];
      }
    }
  }

  /** One step of the scan when the token matches at the front: the value
      emitted joins the prefix without creating an occurrence there. */
  lemma PrefixStaysClearOnMatch(l: string, s: string, t: string, v: string, u: string)
    requires t != [] && |t| <= |s| && s[..|t|] == t
    requires Inert(v, u) && ClearBefore(l + s, u, |l|)
    ensures ClearBefore(l + v + s[|t|..], u, |l + v|)
  {
    var rest := s[|t|..];
    forall p | 0 <= p < |l + v| ensures !OccursAt(l + v + rest, u, p) {
      if p + |u| <= |l| {
        if OccursAt(l + v + rest, u, p) {
          assert l + v + rest == l + (v + rest);
          OccurrenceInPrefix(l, v + rest, s, u, p);
        }
      } else {
        NoOccurrenceOverValue(l, v, rest, u, p);
      }
    }
  }

  /** One step of the scan when the token does not match at the front. */
  lemma PrefixStaysClearOnMiss(l: string, s: string, t: string, u: string)
    requires t != [] && s != [] && (|s| < |t| || s[..|t|] != t)
    requires ReplacedOrAbsent(s, t, u) && ClearBefore(l + s, u, |l|)
    ensures ClearBefore(l + [s[0]] + s[1..], u, |l| + 1)
  {
    assert l + [s[0]] + s[1..] == l + s;
    OccurrenceAfterPrefix(l, s, u, |l|);
    assert !OccursAt(s, u, 0);
  }

  /** The end of the scan: what is left is shorter than the token. */
  lemma ShortTailStaysClear(l: string, s: string, t: string, u: string)
    requires |s| < |t|
    requires ReplacedOrAbsent(s, t, u) && ClearBefore(l + s, u, |l|)
    ensures !Contains(l + s, u)
  {
    forall p | 0 <= p <= |l + s| - |u| ensures !OccursAt(l + s, u, p) {
      if p >= |l| { OccurrenceAfterPrefix(l, s, u, p); }
    }
  }

  /** The single-pass scan of `ReplaceAll` leaves no occurrence of the
      brace-delimited token `u` (the token replaced, or one absent from the
      input) when the value is inert. `l` is the text already emitted, in
      which no occurrence starts. */
  lemma {:induction false} ReplaceAllLeavesNoOccurrence(l: string, s: string, t: string, v: string, u: string)
    requires t != [] && Inert(v, u)
    requires ReplacedOrAbsent(s, t, u) && ClearBefore(l + s, u, |l|)
    ensures !Contains(l + ReplaceAll(s, t, v), u)
    decreases |s|, 1
  {
    if |s| < |t| {
      ShortTailStaysClear(l, s, t, u);
    } else if s[..|t|] == t {
      NoOccurrenceAfterMatch(l, s, t, v, u);
    } else {
      NoOccurrenceAfterMiss(l, s, t, v, u);
    }
  }

  /** The scan step that replaces a match at the front. */
  lemma NoOccurrenceAfterMatch(l: string, s: string, t: string, v: string, u: string)
    requires t != [] && Inert(v, u)
    requires |t| <= |s| && s[..|t|] == t
    requires ReplacedOrAbsent(s, t, u) && ClearBefore(l + s, u, |l|)
    ensures !Contains(l + ReplaceAll(s, t, v), u)
    decreases |s|, 0
  {
    PrefixStaysClearOnMatch(l, s, t, v, u);
    RestReplacedOrAbsent(s, |t|, t, u);
    ScanStep(l, s, t, v);
    ReplaceAllLeavesNoOccurrence(l + v, s[|t|..], t, v, u);
  }

  /** The scan step that copies one character. */
  lemma NoOccurrenceAfterMiss(l: string, s: string, t: string, v: string, u: string)
    requires t != [] && Inert(v, u)
    requires |t| <= |s| && s[..|t|] != t
    requires ReplacedOrAbsent(s, t, u) && ClearBefore(l + s, u, |l|)
    ensures !Contains(l + ReplaceAll(s, t, v), u)
    decreases |s|, 0
  {
    PrefixStaysClearOnMiss(l, s, t, u);
    RestReplacedOrAbsent(s, 1, t, u);
    ScanStep(l, s, t, v);
    ReplaceAllLeavesNoOccurrence(l + [s[0]], s[1..], t, v, u);
  }

  /** One step of the scan, seen after the text already emitted. */
  lemma ScanStep(l: string, s: string, t: string, v: string)
    requires t != [] && |t| <= |s|
    ensures s[..|t|] == t ==> l + ReplaceAll(s, t, v) == l + v + ReplaceAll(s[|t|..], t, v)
    ensures s[..|t|] != t ==> l + ReplaceAll(s, t, v) == l + [s[0]] + ReplaceAll(s[1..], t, v)
  {
    if s[..|t|] == t {
      AppendAssoc(l, v, ReplaceAll(s[|t|..], t, v));
    } else {
      AppendAssoc(l, [s[0]], ReplaceAll(s[1..], t, v));
    }
  }

  lemma AppendAssoc(a: string, b: string, c: string)
    ensures a + (b + c) == a + b + c
  {
  }

  lemma RestReplacedOrAbsent(s: string, k: nat, t: string, u: string)
    requires k <= |s| && ReplacedOrAbsent(s, t, u)
    ensures ReplacedOrAbsent(s[k..], t, u)
  {
    if u != t { NotContainsSuffix(s, k, u); }
  }

  /** A prefix in which no occurrence of `t` starts is copied through. */
  lemma {:induction false} ReplaceAllSkipsClearPrefix(a: string, s: string, t: string, v: string)
    requires t != [] && ClearBefore(a + s, t, |a|)
    ensures ReplaceAll(a + s, t, v) == a + ReplaceAll(s, t, v)
    decreases |a|
  {
    if a == [] {
      assert a + s == s;
    } else {
      var rest := a[1..] + s;
      ClearPrefixStep(a, s, t);
      ReplaceAllSkipsClearPrefix(a[1..], s, t, v);
      CopyStep(a[0], rest, t, v);
      AppendAssoc([a[0]], a[1..], ReplaceAll(s, t, v));
    }
  }

  /** Dropping the first character of a clear prefix leaves a clear prefix. */
  lemma ClearPrefixStep(a: string, s: string, t: string)
    requires a != [] && ClearBefore(a + s, t, |a|)
    ensures a + s == [a[0]] + (a[1..] + s) && [a[0]] + a[1..] == a
    ensures !OccursAt(a + s, t, 0) && ClearBefore(a[1..] + s, t, |a| - 1)
  {
    var rest := a[1..] + s;
    assert a + s == [a[0]] + rest;
    forall p | 0 <= p < |a| - 1 ensures !OccursAt(rest, t, p) {
      OccurrenceAfterPrefix([a[0]], rest, t, p + 1);
    }
  }

  /** Where `t` does not start at the front, the scan copies one character. */
  lemma CopyStep(c: char, rest: string, t: string, v: string)
    requires t != [] && !OccursAt([c] + rest, t, 0)
    ensures ReplaceAll([c] + rest, t, v) == [c] + ReplaceAll(rest, t, v)
  {
    var x := [c] + rest;
    assert x[1..] == rest;
    if |x| >= |t| {
      assert x[..|t|] != t;
    }
  }

  /** A brace-free prefix is copied through and a token right after it is
      replaced: the scan finds exactly that occurrence next. */
  lemma ReplaceAllAtToken(a: string, t: string, b: string, v: string)
    requires Delimited(t) && BraceFree(a)
    ensures ReplaceAll(a + t + b, t, v) == a + v + ReplaceAll(b, t, v)
  {
    ReplaceAllSkipsPrefix(a, t + b, t, v);
    assert a + t + b == a + (t + b);
    assert (t + b)[..|t|] == t && (t + b)[|t|..] == b;
  }

  /** `join` of path components with a separator. */
  function Join(parts: seq<string>, sep: string): string
    decreases |parts|
  {
    if |parts| == 0 then ""
    else if |parts| == 1 then parts[0]
    else Join(parts[..|parts| - 1], sep) + sep + parts[|parts| - 1]
  }

  /** A component's substring is a substring of the joined path. */
  lemma {:induction false} JoinContainsComponent(parts: seq<string>, sep: string, i: nat, t: string)
    requires i < |parts| && Contains(parts[i], t)
    ensures Contains(Join(parts, sep), t)
    decreases |parts|
  {
    if |parts| > 1 {
      var init := parts[..|parts| - 1];
      if i == |parts| - 1 {
        ContainsInContext(Join(init, sep) + sep, parts[i], "", t);
        assert Join(init, sep) + sep + parts[i] + "" == Join(parts, sep);
      } else {
        assert init[i] == parts[i];
        JoinContainsComponent(init, sep, i, t);
        ContainsInContext("", Join(init, sep), sep + parts[|parts| - 1], t);
        assert "" + Join(init, sep) + (sep + parts[|parts| - 1]) == Join(parts, sep);
      }
    }
  }

  lemma JoinPair(a: string, b: string, sep: string)
    ensures Join([a, b], sep) == a + sep + b
  {
    assert [a, b][..1] == [a];
  }

  /** `Join` read from the front. */
  lemma {:induction false} JoinFront(parts: seq<string>, sep: string)
    requires |parts| >= 2
    ensures Join(parts, sep) == parts[0] + sep + Join(parts[1..], sep)
    decreases |parts|
  {
    var init := parts[..|parts| - 1];
    var last := parts[|parts| - 1];
    if |parts| == 2 {
      assert init == [parts[0]];
      assert parts[1..] == [last];
    } else {
      JoinFront(init, sep);
      assert init[0] == parts[0];
      assert init[1..] == parts[1..][..|parts[1..]| - 1];
      assert Join(parts[1..], sep) == Join(init[1..], sep) + sep + last;
    }
  }

  /** No proper prefix of `t` is also a suffix of it, so two occurrences
      of `t` cannot overlap. */
  predicate BorderFree(t: string) {
    forall m :: 0 < m < |t| ==> t[..m] != t[|t| - m..]
  }

  /** `t` opens with `{{` and holds no other `{`, as every placeholder does. */
  predicate OpensOnce(t: string) {
    |t| >= 3 && t[0] == '{' && t[1] == '{' && forall i :: 2 <= i < |t| ==> t[i] != '{'
  }

  lemma OpensOnceBorderFree(t: string)
    requires OpensOnce(t)
    ensures BorderFree(t)
  {
    forall m | 0 < m < |t| ensures t[..m] != t[|t| - m..] {
      if |t| - m >= 2 {
        assert t[|t| - m..][0] == t[|t| - m] != t[..m][0];
      } else {
        assert t[|t| - m..][1] == t[2] != t[..m][1];
      }
    }
  }

  /** An occurrence of `t` that starts in `a` and runs into a `t` right after
      `a` would make a border of `t`. */
  lemma OverlapIsBorder(a: string, t: string, rest: string, p: int)
    requires 0 <= p < |a| < p + |t|
    ensures OccursAt(a + (t + rest), t, p) ==> t[..p + |t| - |a|] == t[|a| - p..]
  {
    var x := a + (t + rest);
    var m := p + |t| - |a|;
    if OccursAt(x, t, p) {
      forall i | 0 <= i < m ensures t[i] == t[|t| - m + i] {
        assert x[|a| + i] == t[i];
        assert x[p..p + |t|][|t| - m + i] == x[|a| + i];
      }
      assert t[..m] == t[|t| - m..];
    }
  }

  /** In a token-free piece followed by a border-free token, the scan finds
      no occurrence before the token. */
  lemma ClearBeforeToken(a: string, t: string, rest: string)
    requires t != [] && BorderFree(t) && !Contains(a, t)
    ensures ClearBefore(a + (t + rest), t, |a|)
  {
    var x := a + (t + rest);
    forall p | 0 <= p < |a| ensures !OccursAt(x, t, p) {
      if p + |t| <= |a| {
        if p + |t| <= |x| {
          assert x[p..p + |t|] == a[p..p + |t|];
        }
        assert !OccursAt(a, t, p);
      } else {
        OverlapIsBorder(a, t, rest, p);
      }
    }
  }

  /** The reference reading of a global replace: text made of pieces that
      hold no occurrence of a border-free token, joined by that token, comes
      back as the same pieces joined by the value, so every occurrence is
      replaced and nothing else changes. */
  lemma {:induction false} ReplaceAllJoin(parts: seq<string>, t: string, v: string)
    requires t != [] && BorderFree(t)
    requires forall k :: 0 <= k < |parts| ==> !Contains(parts[k], t)
    ensures ReplaceAll(Join(parts, t), t, v) == Join(parts, v)
    decreases |parts|
  {
    if |parts| == 1 {
      ReplaceAllWithoutToken(parts[0], t, v);
    } else if |parts| > 1 {
      var rest := Join(parts[1..], t);
      JoinFront(parts, t);
      JoinFront(parts, v);
      ClearBeforeToken(parts[0], t, rest);
      ReplaceAllSkipsClearPrefix(parts[0], t + rest, t, v);
      assert (t + rest)[..|t|] == t && (t + rest)[|t|..] == rest;
      ReplaceAllJoin(parts[1..], t, v);
      AppendAssoc(parts[0], t, rest);
      AppendAssoc(parts[0], v, Join(parts[1..], v));
    }
  }

  /** `u` and `v` both open once with `{{` and differ within their common
      length, so neither is a prefix of the other. */
  predicate DistinctOpen(v: string, u: string) {
    OpensOnce(v) && OpensOnce(u) && exists i :: 0 <= i < |u| && i < |v| && u[i] != v[i]
  }

  /** An occurrence of `u` cannot overlap a distinct token `v`. */
  lemma NoOccurrenceOverOpen(l: string, v: string, y: string, u: string, p: int)
    requires DistinctOpen(v, u)
    requires p < |l| + |v| && |l| < p + |u|
    ensures !OccursAt(l + v + y, u, p)
  {
    var x := l + v + y;
    if 0 <= p && p + |u| <= |x| {
      var w := x[p..p + |u|];
      if p < |l| - 1 {
        assert w[|l| - p] == x[|l|] == v[0];
        assert w[|l| - p] != u[|l| - p];
      } else if p == |l| - 1 {
        assert w[2] == x[|l| + 1] == v[1];
        assert w[2] != u[2];
      } else if p == |l| {
        var i :| 0 <= i < |u| && i < |v| && u[i] != v[i];
        assert w[i] == x[|l| + i] == v[i];
      } else if p == |l| + 1 {
        assert w[1] == x[|l| + 2] == v[2];
        assert w[1] != u[1];
      } else {
        assert w[0] == x[p] == v[p - |l|];
        assert w[0] != u[0];
      }
    }
  }

  /** Pieces free of `u`, joined by a separator that cannot take part in an
      occurrence of `u`, hold no `u`. */
  lemma {:induction false} JoinHasNoToken(parts: seq<string>, v: string, u: string)
    requires Inert(v, u) || DistinctOpen(v, u)
    requires forall k :: 0 <= k < |parts| ==> !Contains(parts[k], u)
    ensures !Contains(Join(parts, v), u)
    decreases |parts|
  {
    if |parts| == 0 {
      assert |u| >= 2;
    } else if |parts| > 1 {
      var init := parts[..|parts| - 1];
      var j := Join(init, v);
      var last := parts[|parts| - 1];
      forall k | 0 <= k < |init| ensures !Contains(init[k], u) {
        assert init[k] == parts[k];
      }
      JoinHasNoToken(init, v, u);
      var x := j + v + last;
      forall p | 0 <= p <= |x| - |u| ensures !OccursAt(x, u, p) {
        if p + |u| <= |j| {
          assert x[p..p + |u|] == j[p..p + |u|];
          assert !OccursAt(j, u, p);
        } else if p >= |j| + |v| {
          OccurrenceAfterPrefix(j + v, last, u, p);
          assert !OccursAt(last, u, p - |j + v|);
        } else if Inert(v, u) {
          NoOccurrenceOverValue(j, v, last, u, p);
        } else {
          NoOccurrenceOverOpen(j, v, last, u, p);
        }
      }
    }
  }

  /** Brace-free pieces joined by a brace-free separator are brace-free. */
  lemma {:induction false} JoinBraceFree(parts: seq<string>, sep: string)
    requires BraceFree(sep)
    requires forall k :: 0 <= k < |parts| ==> BraceFree(parts[k])
    ensures BraceFree(Join(parts, sep))
    decreases |parts|
  {
    if |parts| > 1 {
      var init := parts[..|parts| - 1];
      JoinBraceFree(init, sep);
      var j := Join(init, sep);
      var last := parts[|parts| - 1];
      assert Join(parts, sep) == j + sep + last;
      forall i | 0 <= i < |j + sep + last| ensures (j + sep + last)[i] != '{' && (j + sep + last)[i] != '}' {
        if i < |j| { assert (j + sep + last)[i] == j[i]; }
        else if i < |j| + |sep| { assert (j + sep + last)[i] == sep[i - |j|]; }
        else { assert (j + sep + last)[i] == last[i - |j| - |sep|]; }
      }
    }
  }

  /** A brace-free text holds no brace-delimited token. */
  lemma BraceFreeHasNoToken(s: string, u: string)
    requires BraceFree(s) && Delimited(u)
    ensures !Contains(s, u)
  {
    forall p | 0 <= p <= |s| - |u| ensures !OccursAt(s, u, p) {
      assert s[p..p + |u|][0] == s[p];
    }
  }

  /** The joined path ends with whatever its last component ends with. */
  lemma JoinEndsWithLast(parts: seq<string>, sep: string, t: string)
    requires |parts| > 0 && EndsWith(parts[|parts| - 1], t)
    ensures EndsWith(Join(parts, sep), t)
  {
    if |parts| > 1 {
      var j := Join(parts, sep);
      var last := parts[|parts| - 1];
      assert j == Join(parts[..|parts| - 1], sep) + sep + last;
      assert j[|j| - |t|..] == last[|last| - |t|..];
    }
  }

  /** The digit character for `d`. */
  function DigitChar(d: nat): (c: char)
    requires d < 10
    ensures IsDigit(c)
  {
    ('0' as int + d) as char
  }

  /** The value of a digit character. */
  function DigitValue(c: char): (d: nat)
    requires IsDigit(c)
    ensures d < 10 && DigitChar(d) == c
  {
    c as int - '0' as int
  }

  predicate AllDigits(s: string) {
    forall i :: 0 <= i < |s| ==> IsDigit(s[i])
  }

  /** `n.toString()` for a non-negative integer: base 10, no leading zero. */
  function NatToString(n: nat): (r: string)
    ensures |r| > 0 && AllDigits(r)
    ensures |r| > 1 ==> r[0] != '0'
    decreases n
  {
    if n < 10 then [DigitChar(n)] else NatToString(n / 10) + [DigitChar(n % 10)]
  }

  /** `n.toString()` for any integer. */
  function IntToString(n: int): (r: string)
    ensures |r| > 0 && BraceFree(r)
    ensures exists i :: 0 <= i < |r| && IsDigit(r[i])
  {
    var digits := NatToString(if n < 0 then -n else n);
    assert IsDigit(digits[0]);
    if n < 0 then
      assert ("-" + digits)[1] == digits[0];
      "-" + digits
    else digits
  }
}
