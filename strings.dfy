/**
 * The JavaScript string primitives the scraper relies on: `startsWith`,
 * `includes`, `indexOf`, `replace` with a string pattern (first occurrence
 * only), `trim`, `toLowerCase`, and the `||` fallback between attribute values.
 */
module Strings {
  import opened Wrappers

  /** JavaScript's WhiteSpace and LineTerminator characters: what `trim` removes and what `\s` matches. */
  predicate IsJsSpace(c: char)
  {
    c == ' ' || ('\t' <= c <= '\r')
    || c == '\U{00A0}' || c == '\U{1680}' || ('\U{2000}' <= c <= '\U{200A}')
    || c == '\U{2028}' || c == '\U{2029}' || c == '\U{202F}' || c == '\U{205F}'
    || c == '\U{3000}' || c == '\U{FEFF}'
  }

  /** `\d` in a JavaScript regular expression without the `u` flag: ASCII digits only. */
  predicate IsDigit(c: char)
  {
    '0' <= c <= '9'
  }

  predicate StartsWith(s: string, p: string)
  {
    |p| <= |s| && s[..|p|] == p
  }

  /** `p` occurs in `s` starting at index `i`. */
  predicate OccursAt(s: string, p: string, i: int)
  {
    0 <= i && i + |p| <= |s| && s[i..i + |p|] == p
  }

  lemma OccursAtTail(s: string, p: string, i: int)
    requires |s| > 0 && 0 <= i
    ensures OccursAt(s, p, i + 1) <==> OccursAt(s[1..], p, i)
  {
    if i + 1 + |p| <= |s| {
      assert s[i + 1..i + 1 + |p|] == s[1..][i..i + |p|];
    }
  }

  lemma OccursAtMiddle(a: string, p: string, b: string)
    ensures OccursAt(a + p + b, p, |a|)
  {
    assert (a + p + b)[|a|..|a| + |p|] == p;
  }

  lemma OccursAtAppend(s: string, t: string, p: string, i: int)
    requires OccursAt(s, p, i)
    ensures OccursAt(s + t, p, i)
  {
    assert (s + t)[i..i + |p|] == s[i..i + |p|];
  }

  /** `s.indexOf(p)`: the first index at which `p` occurs in `s`, or -1. */
  function IndexOf(s: string, p: string): (r: int)
    ensures -1 <= r <= |s|
    ensures r >= 0 ==> OccursAt(s, p, r)
    ensures r >= 0 ==> forall i :: 0 <= i < r ==> !OccursAt(s, p, i)
    ensures r < 0 ==> forall i :: !OccursAt(s, p, i)
    decreases |s|
  {
    if |s| < |p| then
      -1
    else if StartsWith(s, p) then
      0
    else
      var k := IndexOf(s[1..], p);
      assert !OccursAt(s, p, 0);
      forall i | 1 <= i
        ensures OccursAt(s, p, i) <==> OccursAt(s[1..], p, i - 1)
      {
        OccursAtTail(s, p, i - 1);
      }
      if k < 0 then -1 else k + 1
  }

  /** `s.includes(p)`. */
  predicate Contains(s: string, p: string)
  {
    IndexOf(s, p) >= 0
  }

  lemma ContainsAt(s: string, p: string, i: int)
    requires OccursAt(s, p, i)
    ensures Contains(s, p)
  {
  }

  /** `s.replace(p, rep)` with a string pattern: only the first occurrence is replaced. */
  function ReplaceFirst(s: string, p: string, rep: string): (r: string)
    ensures !Contains(s, p) ==> r == s
    ensures Contains(s, p) ==> |r| == |s| - |p| + |rep| && OccursAt(r, rep, IndexOf(s, p))
    ensures Contains(s, p) ==> r[..IndexOf(s, p)] == s[..IndexOf(s, p)]
    ensures Contains(s, p) ==> r[IndexOf(s, p) + |rep|..] == s[IndexOf(s, p) + |p|..]
  {
    var i := IndexOf(s, p);
    if i < 0 then s
    else
      var r := s[..i] + rep + s[i + |p|..];
      assert r[i..i + |rep|] == rep;
      r
  }

  /** Replacing a pattern that the string starts with swaps exactly that prefix. */
  lemma ReplaceFirstAtStart(s: string, p: string, rep: string)
    requires StartsWith(s, p)
    ensures ReplaceFirst(s, p, rep) == rep + s[|p|..]
  {
    assert OccursAt(s, p, 0);
  }

  /** Leading JavaScript whitespace removed (`trimStart`). */
  function TrimStart(s: string): (r: string)
    ensures |r| <= |s| && r == s[|s| - |r|..]
    ensures r == [] || !IsJsSpace(r[0])
  {
    if s == [] || !IsJsSpace(s[0]) then s else TrimStart(s[1..])
  }

  /** Trailing JavaScript whitespace removed (`trimEnd`). */
  function TrimEnd(s: string): (r: string)
    ensures |r| <= |s| && r == s[..|r|]
    ensures r == [] || !IsJsSpace(r[|r| - 1])
  {
    if s == [] || !IsJsSpace(s[|s| - 1]) then s
    else TrimEnd(s[..|s| - 1])
  }

  /** Everything `trimStart` cuts is whitespace. */
  lemma {:induction false} TrimStartCuts(s: string)
    ensures forall k :: 0 <= k < |s| - |TrimStart(s)| ==> IsJsSpace(s[k])
    decreases |s|
  {
    if s != [] && IsJsSpace(s[0]) {
      TrimStartCuts(s[1..]);
      forall k | 1 <= k < |s| - |TrimStart(s)| ensures IsJsSpace(s[k]) {
        assert s[k] == s[1..][k - 1];
      }
    }
  }

  /** Everything `trimEnd` cuts is whitespace. */
  lemma {:induction false} TrimEndCuts(s: string)
    ensures forall k :: |TrimEnd(s)| <= k < |s| ==> IsJsSpace(s[k])
    decreases |s|
  {
    if s != [] && IsJsSpace(s[|s| - 1]) {
      var p := s[..|s| - 1];
      TrimEndCuts(p);
      forall k | |TrimEnd(s)| <= k < |s| - 1 ensures IsJsSpace(s[k]) {
        assert s[k] == p[k];
      }
    }
  }

  /** `s.trim()`. */
  function Trim(s: string): (r: string)
    ensures |r| <= |s|
    ensures r == [] || (!IsJsSpace(r[0]) && !IsJsSpace(r[|r| - 1]))
  {
    TrimStart(TrimEnd(s))
  }

  /** How many leading characters `trim` cuts. */
  function TrimOffset(s: string): nat
  {
    |TrimEnd(s)| - |TrimStart(TrimEnd(s))|
  }

  /** What `trim` keeps is a slice of `s`. */
  lemma TrimIsSlice(s: string)
    ensures TrimOffset(s) + |Trim(s)| <= |s|
    ensures Trim(s) == s[TrimOffset(s)..TrimOffset(s) + |Trim(s)|]
  {
    var e := TrimEnd(s);
    var r := TrimStart(e);
    var i := |e| - |r|;
    assert Trim(s) == r && TrimOffset(s) == i;
    SuffixOfPrefix(s, |e|, i);
  }

  lemma SuffixOfPrefix(s: string, n: nat, i: nat)
    requires i <= n <= |s|
    ensures s[..n][i..] == s[i..n]
  {
  }

  /** Everything `trim` cuts from either end is whitespace. */
  lemma TrimCutsSpace(s: string)
    ensures forall k :: 0 <= k < TrimOffset(s) ==> IsJsSpace(s[k])
    ensures forall k :: TrimOffset(s) + |Trim(s)| <= k < |s| ==> IsJsSpace(s[k])
  {
    var e := TrimEnd(s);
    var r := TrimStart(e);
    TrimEndCuts(s);
    TrimStartCuts(e);
    forall k | 0 <= k < |e| - |r| ensures IsJsSpace(s[k]) {
      assert e == s[..|e|];
      assert s[k] == e[k];
    }
  }

  /** `trim` adds no characters. */
  lemma TrimKeepsOut(s: string, c: char)
    requires c !in s
    ensures c !in Trim(s)
  {
    TrimIsSlice(s);
    SliceKeepsOut(s, c, TrimOffset(s), TrimOffset(s) + |Trim(s)|);
  }

  lemma SliceKeepsOut(s: string, c: char, i: nat, j: nat)
    requires i <= j <= |s| && c !in s
    ensures c !in s[i..j]
  {
    assert forall k :: 0 <= k < j - i ==> s[i..j][k] == s[i + k];
  }

  /** Lower-casing leaves characters other than `A`-`Z` alone, so it adds none of them. */
  lemma LowerKeepsOut(s: string, c: char)
    requires c !in s && !('A' <= c <= 'Z') && !('a' <= c <= 'z')
    ensures c !in ToLower(s)
  {
    assert forall j :: 0 <= j < |s| ==> ToLower(s)[j] == LowerChar(s[j]);
  }

  function LowerChar(c: char): (d: char)
  {
    if 'A' <= c <= 'Z' then (c as int + 32) as char else c
  }

  /** `s.toLowerCase()` on the ASCII letters. */
  function ToLower(s: string): (r: string)
    ensures |r| == |s|
    ensures forall k :: 0 <= k < |s| ==> r[k] == LowerChar(s[k])
    ensures forall k :: 0 <= k < |s| ==> !('A' <= r[k] <= 'Z')
  {
    if s == [] then [] else [LowerChar(s[0])] + ToLower(s[1..])
  }

  /** JavaScript truthiness of an attribute value: present and not the empty string. */
  predicate Truthy(a: Option<string>)
  {
    a.Some? && a.value != ""
  }

  /** `a || b` between two attribute values that may be undefined. */
  function OrElse(a: Option<string>, b: Option<string>): (r: Option<string>)
    ensures Truthy(a) ==> r == a
    ensures !Truthy(a) ==> r == b
  {
    if Truthy(a) then a else b
  }

  /** `s || fallback` between two strings. */
  function OrDefault(s: string, fallback: string): (r: string)
    ensures s != "" ==> r == s
    ensures s == "" ==> r == fallback
  {
    if s != "" then s else fallback
  }

  /** Containing a string means containing each of its prefixes. */
  lemma ContainsPrefix(s: string, p: string, q: string)
    requires Contains(s, p + q)
    ensures Contains(s, p)
  {
    var i := IndexOf(s, p + q);
    assert s[i..i + |p|] == s[i..i + |p + q|][..|p|];
    assert (p + q)[..|p|] == p;
    ContainsAt(s, p, i);
  }

  /** `includes` of a one-character string is membership of that character. */
  lemma ContainsChar(s: string, c: char)
    ensures Contains(s, [c]) <==> c in s
  {
    if c in s {
      var i :| 0 <= i < |s| && s[i] == c;
      assert s[i..i + 1] == [c];
      ContainsAt(s, [c], i);
    }
    forall i | 0 <= i < |s|
      ensures OccursAt(s, [c], i) ==> s[i] == c
    {
      assert |s[i..i + 1]| == 1 && s[i..i + 1][0] == s[i];
    }
  }

  /** `attr || fallback` for an attribute that may be undefined. */
  function AttrOr(a: Option<string>, fallback: string): (r: string)
    ensures Truthy(a) ==> r == a.value
    ensures !Truthy(a) ==> r == fallback
  {
    if Truthy(a) then a.value else fallback
  }

  // Auxiliary facts for reasoning about concrete strings.

  /** An index found after a prefix free of the pattern's first character is shifted by that prefix. */
  lemma {:induction false} IndexOfSkip(a: string, b: string, p: string)
    requires |p| > 0 && p[0] !in a
    ensures IndexOf(a + b, p) == if IndexOf(b, p) < 0 then -1 else |a| + IndexOf(b, p)
  {
    if a == [] {
      assert a + b == b;
    } else {
      if |a + b| >= |p| {
        assert (a + b)[..|p|][0] == a[0];
      }
      assert (a + b)[1..] == a[1..] + b;
      IndexOfSkip(a[1..], b, p);
    }
  }

  /** One character that starts the pattern but is followed by a mismatch cannot start an occurrence. */
  lemma IndexOfNearMiss(c: char, b: string, p: string)
    requires |p| >= 2 && |b| >= 1 && b[0] != p[1]
    ensures IndexOf([c] + b, p) == if IndexOf(b, p) < 0 then -1 else 1 + IndexOf(b, p)
  {
    var s := [c] + b;
    assert s[1] == b[0];
    if |s| >= |p| {
      assert s[..|p|][1] == b[0];
    }
    assert s[1..] == b;
  }

  lemma IndexOfAtStart(s: string, p: string)
    requires StartsWith(s, p)
    ensures IndexOf(s, p) == 0
  {
    assert OccursAt(s, p, 0);
  }

  /** A pattern whose first character does not appear in `s` does not occur in it. */
  lemma FirstCharAbsent(s: string, p: string)
    requires p != [] && p[0] !in s
    ensures !Contains(s, p)
  {
    forall i | 0 <= i && i + |p| <= |s|
      ensures s[i..i + |p|][0] == s[i]
    {
    }
  }

  /** Two strings of one length contain each other only when equal. */
  lemma SameLengthContains(s: string, p: string)
    requires |s| == |p| && s != p
    ensures !Contains(s, p)
  {
  }

  /** Joining `t` after `s` creates no occurrence of `p` that starts inside `s`, when `t`'s first character cannot continue `p`. */
  lemma NoOccurrenceAcrossJoin(s: string, t: string, p: string)
    requires !Contains(s, p) && t != [] && t[0] !in p[1..]
    ensures forall k :: 0 <= k < |s| ==> !OccursAt(s + t, p, k)
  {
    forall k | 0 <= k < |s|
      ensures !OccursAt(s + t, p, k)
    {
      if k + |p| <= |s| {
        assert (s + t)[k..k + |p|] == s[k..k + |p|];
        assert !OccursAt(s, p, k);
      } else if k + |p| <= |s + t| {
        assert (s + t)[k..k + |p|][|s| - k] == t[0];
        assert p[|s| - k] == p[1..][|s| - k - 1] && p[1..][|s| - k - 1] in p[1..];
      }
    }
  }

  /** Joining two texts without `p` creates no `p` when the last character of the first does not occur in `p`. */
  lemma NotContainsAfter(s: string, t: string, p: string)
    requires !Contains(s, p) && !Contains(t, p) && s != [] && s[|s| - 1] !in p
    ensures !Contains(s + t, p)
  {
    forall k | 0 <= k
      ensures !OccursAt(s + t, p, k)
    {
      if k + |p| <= |s| {
        assert (s + t)[k..k + |p|] == s[k..k + |p|];
        assert !OccursAt(s, p, k);
      } else if k < |s| && k + |p| <= |s + t| {
        assert (s + t)[k..k + |p|][|s| - 1 - k] == s[|s| - 1];
      } else if k + |p| <= |s + t| {
        assert (s + t)[k..k + |p|] == t[k - |s|..k - |s| + |p|];
        assert !OccursAt(t, p, k - |s|);
      }
    }
  }

  /** ... and so no occurrence at all when `t` has none either. */
  lemma NotContainsConcat(s: string, t: string, p: string)
    requires !Contains(s, p) && !Contains(t, p) && t != [] && t[0] !in p[1..]
    ensures !Contains(s + t, p)
  {
    NoOccurrenceAcrossJoin(s, t, p);
    forall k | |s| <= k
      ensures OccursAt(s + t, p, k) ==> OccursAt(t, p, k - |s|)
    {
      if k + |p| <= |s + t| {
        assert (s + t)[k..k + |p|] == t[k - |s|..k - |s| + |p|];
      }
    }
  }
}
