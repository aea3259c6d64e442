/**
 * The single-byte string helpers the resolver relies on. Only `part` is
 * defined in the repository (src/support/lowlevel/firehub.StrSB.php); the
 * others are specified here by the PHP functions they are named after:
 *  - `trim` strips the given characters from both ends (default: PHP's
 *    whitespace set " \t\n\r\0\x0B");
 *  - `startsWith` takes the needle FIRST and the haystack second;
 *  - `toLower` is ASCII lower-casing;
 *  - `lastCharacterFrom` is `strrchr`, with a flag selecting the part before
 *    the last occurrence of the needle instead of the part from it;
 *  - `replace` is used with a one-character search and a one-character
 *    replacement, so it is a per-character substitution.
 */
module StrSB {

  import opened Php

  /** PHP's default set of characters stripped by trim(). */
  const Whitespace: set<char> := {' ', '\t', '\n', '\r', '\0', '\U{000B}'}

  /** How many leading characters of `s` are in `cs`. */
  function LeadingIn(s: string, cs: set<char>): (n: nat)
    ensures n <= |s|
    ensures forall i :: 0 <= i < n ==> s[i] in cs
    ensures n < |s| ==> s[n] !in cs
  {
    if s != [] && s[0] in cs then 1 + LeadingIn(s[1..], cs) else 0
  }

  /** How many trailing characters of `s` are in `cs`. */
  function TrailingIn(s: string, cs: set<char>): (n: nat)
    ensures n <= |s|
    ensures forall i :: |s| - n <= i < |s| ==> s[i] in cs
    ensures n < |s| ==> s[|s| - n - 1] !in cs
  {
    if s != [] && s[|s| - 1] in cs then 1 + TrailingIn(s[..|s| - 1], cs) else 0
  }

  /** Strips the longest prefix made of characters in `cs` (`ltrim`). */
  function TrimLeft(s: string, cs: set<char>): string {
    s[LeadingIn(s, cs)..]
  }

  /** Strips the longest suffix made of characters in `cs` (`rtrim`). */
  function TrimRight(s: string, cs: set<char>): string {
    s[..|s| - TrailingIn(s, cs)]
  }

  /** `trim($s, $characters)`. */
  function Trim(s: string, cs: set<char>): (r: string)
    ensures |r| <= |s|
    ensures r != [] ==> r[0] !in cs && r[|r| - 1] !in cs
    ensures r == [] <==> forall i :: 0 <= i < |s| ==> s[i] in cs
    ensures exists i, j :: 0 <= i <= j <= |s| && r == s[i..j]
                           && (forall k :: 0 <= k < i ==> s[k] in cs)
                           && (forall k :: j <= k < |s| ==> s[k] in cs)
  {
    var i := LeadingIn(s, cs);
    var l := TrimLeft(s, cs);
    var n := TrailingIn(l, cs);
    var r := TrimRight(l, cs);
    var j := i + |r|;
    assert l == s[i..] && r == l[..|l| - n];
    assert r == s[i..j];
    assert forall k :: j <= k < |s| ==> s[k] == l[k - i];
    assert r != [] ==> r[0] == s[i] && r[|r| - 1] == l[|l| - n - 1];
    assert r == [] ==> forall k :: 0 <= k < |s| ==> s[k] in cs;
    r
  }

  /** A string that starts with one stripped character and holds no other
      occurrence of it loses exactly that character. */
  lemma TrimSingleLeading(c: char, t: string)
    requires c !in t
    ensures Trim([c] + t, {c}) == t
  {
    var s := [c] + t;
    assert s[1..] == t;
    assert t == [] || t[0] != c by {
      if t != [] { assert t[0] in t; }
    }
    assert t == [] || t[|t| - 1] != c by {
      if t != [] { assert t[|t| - 1] in t; }
    }
    assert s[0] in {c};
    assert TrimLeft(s, {c}) == TrimLeft(s[1..], {c});
    assert TrimLeft(t, {c}) == t;
    assert TrimRight(t, {c}) == t;
  }

  /** Where `Trim` cuts. */
  lemma TrimCuts(s: string, cs: set<char>) returns (i: nat, j: nat)
    ensures i <= j <= |s| && Trim(s, cs) == s[i..j]
    ensures forall k :: 0 <= k < i ==> s[k] in cs
    ensures forall k :: j <= k < |s| ==> s[k] in cs
  {
    i := LeadingIn(s, cs);
    j := i + |TrimRight(s[i..], cs)|;
    assert Trim(s, cs) == s[i..j];
    assert forall k :: j <= k < |s| ==> s[k] == s[i..][k - i];
  }

  /** Any runs of stripped characters around a kept core go away. */
  lemma TrimSurrounded(a: string, mid: string, b: string, cs: set<char>)
    requires forall k :: 0 <= k < |a| ==> a[k] in cs
    requires forall k :: 0 <= k < |b| ==> b[k] in cs
    requires mid != [] && mid[0] !in cs && mid[|mid| - 1] !in cs
    ensures Trim(a + mid + b, cs) == mid
  {
    var s := a + mid + b;
    var m := |a|;
    assert forall k :: 0 <= k < m ==> s[k] == a[k];
    assert s[m] == mid[0];
    assert LeadingIn(s, cs) == m;
    var l := s[m..];
    assert l == mid + b;
    assert forall k :: |mid| <= k < |l| ==> l[k] == b[k - |mid|];
    assert l[|mid| - 1] == mid[|mid| - 1];
    assert TrailingIn(l, cs) == |b|;
    assert TrimRight(l, cs) == mid;
  }

  /** A string whose two ends are kept is left as it is. */
  lemma TrimKeep(s: string, cs: set<char>)
    requires s != [] && s[0] !in cs && s[|s| - 1] !in cs
    ensures Trim(s, cs) == s
  {
    assert TrimLeft(s, cs) == s;
  }

  /** One stripped character in front of a kept core goes away. */
  lemma TrimFront(a: char, mid: string, cs: set<char>)
    requires a in cs
    requires mid != [] && mid[0] !in cs && mid[|mid| - 1] !in cs
    ensures Trim([a] + mid, cs) == mid
  {
    var s := [a] + mid;
    assert s[0] == a;
    assert s[1..] == mid;
    assert TrimLeft(s, cs) == TrimLeft(mid, cs);
    TrimKeep(mid, cs);
  }

  /** One stripped character on each side of a kept core goes away. */
  lemma TrimBoth(a: char, mid: string, b: char, cs: set<char>)
    requires a in cs && b in cs
    requires mid != [] && mid[0] !in cs && mid[|mid| - 1] !in cs
    ensures Trim([a] + mid + [b], cs) == mid
  {
    var s := [a] + mid + [b];
    var m := mid + [b];
    assert s[0] == a;
    assert s[1..] == m;
    assert TrimLeft(s, cs) == TrimLeft(m, cs);
    assert m[0] == mid[0];
    assert TrimLeft(m, cs) == m;
    assert m[|m| - 1] == b;
    assert m[..|m| - 1] == mid;
    assert TrimRight(m, cs) == TrimRight(mid, cs);
    assert TrimRight(mid, cs) == mid;
  }

  /** `StrSB::startsWith($needle, $haystack)`: the needle comes first. */
  predicate StartsWith(needle: string, haystack: string)
    ensures StartsWith(needle, haystack) <==>
              |needle| <= |haystack| && forall k :: 0 <= k < |needle| ==> haystack[k] == needle[k]
  {
    |needle| <= |haystack| && haystack[..|needle|] == needle
  }

  /** ASCII lower-casing of one character. */
  function Lower(c: char): char {
    if 'A' <= c <= 'Z' then (c as int + 32) as char else c
  }

  /** `StrSB::toLower`: ASCII lower-casing, character by character. */
  function ToLower(s: string): (r: string)
    ensures |r| == |s|
    ensures forall i :: 0 <= i < |s| ==> r[i] == Lower(s[i])
  {
    if s == [] then [] else [Lower(s[0])] + ToLower(s[1..])
  }

  lemma ToLowerConcat(a: string, b: string)
    ensures ToLower(a + b) == ToLower(a) + ToLower(b)
  {
    var l, r := ToLower(a + b), ToLower(a) + ToLower(b);
    assert forall i :: 0 <= i < |l| ==> l[i] == r[i] by {
      forall i | 0 <= i < |l| ensures l[i] == r[i] {
        if i < |a| { assert (a + b)[i] == a[i]; } else { assert (a + b)[i] == b[i - |a|]; }
      }
    }
  }

  /** `StrSB::replace($from, $to, $s)` for one-character search and
      replacement strings. */
  function ReplaceChar(s: string, from: char, to: char): (r: string)
    ensures |r| == |s|
    ensures forall i :: 0 <= i < |s| ==> r[i] == if s[i] == from then to else s[i]
    ensures from != to ==> from !in r
  {
    if s == [] then [] else [if s[0] == from then to else s[0]] + ReplaceChar(s[1..], from, to)
  }

  lemma ReplaceCharConcat(a: string, b: string, from: char, to: char)
    ensures ReplaceChar(a + b, from, to) == ReplaceChar(a, from, to) + ReplaceChar(b, from, to)
  {
    var l, r := ReplaceChar(a + b, from, to), ReplaceChar(a, from, to) + ReplaceChar(b, from, to);
    assert forall i :: 0 <= i < |l| ==> l[i] == r[i] by {
      forall i | 0 <= i < |l| ensures l[i] == r[i] {
        if i < |a| { assert (a + b)[i] == a[i]; } else { assert (a + b)[i] == b[i - |a|]; }
      }
    }
  }

  /** A string without the searched character is left as it is. */
  lemma ReplaceCharAbsent(s: string, from: char, to: char)
    requires from !in s
    ensures ReplaceChar(s, from, to) == s
  {
    var r := ReplaceChar(s, from, to);
    assert forall i :: 0 <= i < |s| ==> r[i] == s[i] by {
      forall i | 0 <= i < |s| ensures r[i] == s[i] {
        assert s[i] in s;
      }
    }
  }

  /** Position of the last occurrence of `c` in `s`, if any. */
  function LastIndexOf(s: string, c: char): (r: Option<nat>)
    ensures r.None? <==> c !in s
    ensures r.Some? ==> r.value < |s| && s[r.value] == c
    ensures r.Some? ==> forall j :: r.value < j < |s| ==> s[j] != c
  {
    if s == [] then None
    else if s[|s| - 1] == c then Some(|s| - 1)
    else
      var r := LastIndexOf(s[..|s| - 1], c);
      assert s == s[..|s| - 1] + [s[|s| - 1]];
      r
  }

  /** The last occurrence is the one after which the character no longer occurs. */
  lemma LastIndexOfIs(s: string, c: char, k: nat)
    requires k < |s| && s[k] == c
    requires forall j :: k < j < |s| ==> s[j] != c
    ensures LastIndexOf(s, c) == Some(k)
  {
  }

  /** `StrSB::lastCharacterFrom($needle, $haystack, $before_needle)`, i.e.
      `strrchr`: `None` stands for PHP's `false` when the needle is absent. */
  function LastCharacterFrom(needle: char, haystack: string, beforeNeedle: bool): (r: Option<string>)
    ensures r.None? <==> needle !in haystack
    ensures r.Some? && beforeNeedle ==>
      |r.value| < |haystack| && haystack[|r.value|] == needle && needle !in haystack[|r.value| + 1..]
    ensures r.Some? && !beforeNeedle ==> |r.value| >= 1 && r.value[0] == needle && needle !in r.value[1..]
    ensures r.Some? && beforeNeedle ==> r.value == haystack[..|r.value|]
    ensures r.Some? && !beforeNeedle ==> |r.value| <= |haystack| && r.value == haystack[|haystack| - |r.value|..]
  {
    match LastIndexOf(haystack, needle)
    case None => None
    case Some(k) =>
      assert forall j :: k < j < |haystack| ==> haystack[j] != needle;
      Some(if beforeNeedle then haystack[..k] else haystack[k..])
  }

  /** `StrSB::part($s, $start)` for a non-negative start and no length:
      PHP 8's substr returns "" once the start is past the end. */
  function Part(s: string, start: nat): (r: string)
    ensures start <= |s| ==> s == s[..start] + r
    ensures start >= |s| ==> r == ""
  {
    if start >= |s| then "" else s[start..]
  }
}
