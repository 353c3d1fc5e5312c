/**
 * Hand-written matchers for the regular expressions the scraper uses:
 * `/\d+p/i` (quality), `/(\d+\.?\d*\s*(?:GB|MB))/i` (size), `/\d{4}/` (year),
 * `/https?:\/\/[^\s'"]+/g` (URLs inside script blocks) and the backslash strip.
 * Each non-global `match` is the leftmost match; each matcher below is stated
 * against a declarative description of the token it looks for.
 */
module Patterns {
  import opened Wrappers
  import opened Strings

  /** End of the run of ASCII digits starting at `i`. */
  function DigitRunEnd(s: string, i: nat): (j: nat)
    requires i <= |s|
    ensures i <= j <= |s|
    ensures forall k :: i <= k < j ==> IsDigit(s[k])
    ensures j == |s| || !IsDigit(s[j])
    decreases |s| - i
  {
    if i < |s| && IsDigit(s[i]) then DigitRunEnd(s, i + 1) else i
  }

  /** End of the run of whitespace starting at `i`. */
  function SpaceRunEnd(s: string, i: nat): (j: nat)
    requires i <= |s|
    ensures i <= j <= |s|
    ensures forall k :: i <= k < j ==> IsJsSpace(s[k])
    ensures j == |s| || !IsJsSpace(s[j])
    decreases |s| - i
  {
    if i < |s| && IsJsSpace(s[i]) then SpaceRunEnd(s, i + 1) else i
  }

  predicate AllDigits(s: string, i: int, j: int)
    requires 0 <= i <= j <= |s|
  {
    forall k :: i <= k < j ==> IsDigit(s[k])
  }

  lemma DigitRunEndOf(s: string, i: nat, j: nat)
    requires i <= j < |s| && AllDigits(s, i, j) && !IsDigit(s[j])
    ensures DigitRunEnd(s, i) == j
  {
    var e := DigitRunEnd(s, i);
  }

  lemma SpaceRunEndOf(s: string, i: nat, j: nat)
    requires i <= j < |s| && !IsJsSpace(s[j])
    requires forall k :: i <= k < j ==> IsJsSpace(s[k])
    ensures SpaceRunEnd(s, i) == j
  {
    var e := SpaceRunEnd(s, i);
  }

  // ---------------------------------------------------------------- quality

  predicate IsQualityLetter(c: char)
  {
    c == 'p' || c == 'P'
  }

  /** `\d+p` (case-insensitive) occurs as `s[i..j+1]`: digits `s[i..j]`, then `p` or `P` at `j`. */
  predicate QualityToken(s: string, i: int, j: int)
  {
    0 <= i < j < |s| && AllDigits(s, i, j) && IsQualityLetter(s[j])
  }

  /** End (exclusive) of the match of `\d+p` that starts at `i`, or -1 when none starts there. */
  function QualityEndAt(s: string, i: nat): (e: int)
    requires i <= |s|
    ensures e >= 0 ==> QualityToken(s, i, e - 1)
    ensures e < 0 ==> forall j :: !QualityToken(s, i, j)
  {
    if i < |s| && IsDigit(s[i]) then
      var j := DigitRunEnd(s, i);
      if j < |s| && IsQualityLetter(s[j]) then j + 1
      else
        assert forall j' :: QualityToken(s, i, j') ==> j' == j by {
          forall j' | QualityToken(s, i, j') ensures j' == j {
            DigitRunEndOf(s, i, j');
          }
        }
        -1
    else -1
  }

  /** Leftmost start at or after `from` of a `\d+p` match, or -1. */
  function QualityStartFrom(s: string, from: nat): (i: int)
    requires from <= |s|
    ensures i == -1 || from <= i < |s|
    ensures i >= 0 ==> QualityEndAt(s, i) >= 0
    ensures forall k :: from <= k <= |s| && (i < 0 || k < i) ==> QualityEndAt(s, k) < 0
    decreases |s| - from
  {
    if from == |s| then -1
    else if QualityEndAt(s, from) >= 0 then from
    else QualityStartFrom(s, from + 1)
  }

  /** `s.match(/\d+p/i)?.[0]`. */
  function QualityMatch(s: string): (m: Option<string>)
  {
    var i := QualityStartFrom(s, 0);
    if i < 0 then None else Some(s[i..QualityEndAt(s, i)])
  }

  /** The quality matcher finds a match exactly when some `\d+p` token occurs, and returns the leftmost one. */
  lemma QualityMatchIsLeftmostToken(s: string)
    ensures QualityMatch(s).Some? <==> exists i, j :: QualityToken(s, i, j)
    ensures QualityMatch(s).Some? ==>
      exists i, j :: QualityToken(s, i, j) && QualityMatch(s).value == s[i..j + 1]
                     && forall i', j' :: QualityToken(s, i', j') ==> i <= i'
  {
    var i := QualityStartFrom(s, 0);
    assert forall i', j' :: QualityToken(s, i', j') ==> QualityEndAt(s, i') >= 0;
    if i >= 0 {
      var e := QualityEndAt(s, i);
      assert QualityToken(s, i, e - 1);
      forall i', j' | QualityToken(s, i', j') ensures i <= i' {
        assert QualityEndAt(s, i') >= 0;
      }
    }
  }

  // ------------------------------------------------------------------- size

  predicate IsSizeUnit(c: char, d: char)
  {
    (c == 'G' || c == 'g' || c == 'M' || c == 'm') && (d == 'B' || d == 'b')
  }

  /** End of `\.?\d*` starting at `a`: an optional point, then a run of digits. */
  function FractionEnd(s: string, a: nat): (c: nat)
    requires a <= |s|
    ensures a <= c <= |s|
  {
    if a < |s| && s[a] == '.' then DigitRunEnd(s, a + 1) else DigitRunEnd(s, a)
  }

  /** End of `\s*(GB|MB)` starting at `c`, or -1. */
  function UnitEnd(s: string, c: nat): (e: int)
    requires c <= |s|
    ensures e >= 0 ==> c + 2 <= e <= |s| && IsSizeUnit(s[e - 2], s[e - 1])
  {
    var d := SpaceRunEnd(s, c);
    if d + 1 < |s| && IsSizeUnit(s[d], s[d + 1]) then d + 2 else -1
  }

  /**
   * `\d+\.?\d*\s*(GB|MB)` read at `i` with the parts `s[i..a]` (digits), `s[a..b]`
   * (an optional point), `s[b..c]` (digits), `s[c..d]` (whitespace) and `s[d..d + 2]` (the unit).
   */
  predicate SizeReading(s: string, i: int, a: int, b: int, c: int, d: int)
  {
    0 <= i < a < |s| && AllDigits(s, i, a)
    && (b == a || (b == a + 1 && s[a] == '.'))
    && b <= c <= d && d + 1 < |s| && AllDigits(s, b, c)
    && (forall k :: c <= k < d ==> IsJsSpace(s[k]))
    && IsSizeUnit(s[d], s[d + 1])
  }

  /** Some reading of the size pattern starts at `i` and ends at `e`. */
  ghost predicate SizeReadingEnds(s: string, i: int, e: int)
  {
    exists a, b, c, d :: SizeReading(s, i, a, b, c, d) && e == d + 2
  }

  /**
   * End (exclusive) of the match of `\d+\.?\d*\s*(GB|MB)` (case-insensitive) that
   * starts at `i`, or -1. Each part is taken greedily; what it finds is a reading of the
   * pattern, and `SizeEndAtComplete` shows that no backtracking could find a match the
   * greedy reading misses.
   */
  function SizeEndAt(s: string, i: nat): (e: int)
    requires i <= |s|
    ensures e >= 0 ==> i + 3 <= e <= |s| && IsDigit(s[i]) && IsSizeUnit(s[e - 2], s[e - 1])
    ensures e >= 0 ==> SizeReadingEnds(s, i, e)
  {
    if i < |s| && IsDigit(s[i]) then
      var e := UnitEnd(s, FractionEnd(s, DigitRunEnd(s, i)));
      if e >= 0 then GreedySizeReading(s, i); e else -1
    else -1
  }

  /** The parts the greedy matcher reads make up a reading of the size pattern. */
  lemma GreedySizeReading(s: string, i: nat)
    requires i < |s| && IsDigit(s[i]) && UnitEnd(s, FractionEnd(s, DigitRunEnd(s, i))) >= 0
    ensures SizeReadingEnds(s, i, UnitEnd(s, FractionEnd(s, DigitRunEnd(s, i))))
  {
    var a := DigitRunEnd(s, i);
    var b := if a < |s| && s[a] == '.' then a + 1 else a;
    var c := DigitRunEnd(s, b);
    var d := SpaceRunEnd(s, c);
    assert i < a by { assert DigitRunEnd(s, i) == DigitRunEnd(s, i + 1); }
    assert FractionEnd(s, a) == c;
    assert UnitEnd(s, c) == d + 2 && d + 1 < |s| && IsSizeUnit(s[d], s[d + 1]);
    assert AllDigits(s, i, a) && AllDigits(s, b, c);
    assert SizeReading(s, i, a, b, c, d);
  }

  /** The character that ends the digits of a size token is neither a digit nor a point. */
  lemma SizeDigitsStop(s: string, c: nat, d: nat)
    requires c <= d && d + 1 < |s| && IsSizeUnit(s[d], s[d + 1])
    requires forall k :: c <= k < d ==> IsJsSpace(s[k])
    ensures !IsDigit(s[c]) && s[c] != '.'
  {
    if c < d { assert IsJsSpace(s[c]); }
  }

  /** The unit part of a size token at `c` is read up to the unit's end. */
  lemma UnitEndOf(s: string, c: nat, d: nat)
    requires c <= d && d + 1 < |s| && IsSizeUnit(s[d], s[d + 1])
    requires forall k :: c <= k < d ==> IsJsSpace(s[k])
    ensures UnitEnd(s, c) == d + 2
  {
    SpaceRunEndOf(s, c, d);
  }

  /** The integer and fraction parts of a size token are read up to `c`. */
  lemma FractionEndOf(s: string, i: nat, a: nat, b: nat, c: nat)
    requires i < a < |s| && AllDigits(s, i, a)
    requires b == a || (b == a + 1 && s[a] == '.')
    requires b <= c < |s| && AllDigits(s, b, c) && !IsDigit(s[c]) && s[c] != '.'
    ensures FractionEnd(s, DigitRunEnd(s, i)) == c
  {
    if b == a + 1 {
      DigitRunEndOf(s, i, a);
      DigitRunEndOf(s, b, c);
    } else {
      assert AllDigits(s, i, c);
      DigitRunEndOf(s, i, c);
      DigitRunEndOf(s, c, c);
    }
  }

  /** Any way of reading a size token at `i` is found by the greedy matcher, ending at the same place. */
  lemma SizeEndAtComplete(s: string, i: nat, a: nat, b: nat, c: nat, d: nat)
    requires SizeReading(s, i, a, b, c, d)
    ensures SizeEndAt(s, i) == d + 2
  {
    SizeDigitsStop(s, c, d);
    FractionEndOf(s, i, a, b, c);
    UnitEndOf(s, c, d);
  }

  /** Leftmost start at or after `from` of a size match, or -1. */
  function SizeStartFrom(s: string, from: nat): (i: int)
    requires from <= |s|
    ensures i == -1 || from <= i < |s|
    decreases |s| - from
  {
    if from == |s| then -1
    else if SizeEndAt(s, from) >= 0 then from
    else SizeStartFrom(s, from + 1)
  }

  /** The start the search returns is the start of a size match. */
  lemma {:induction false} SizeStartFromHit(s: string, from: nat)
    requires from <= |s|
    ensures SizeStartFrom(s, from) >= 0 ==> SizeEndAt(s, SizeStartFrom(s, from)) >= 0
    decreases |s| - from
  {
    if from < |s| && SizeEndAt(s, from) < 0 {
      SizeStartFromHit(s, from + 1);
    }
  }

  /** No size match starts between `from` and the start the search returns. */
  lemma {:induction false} SizeStartFromLeftmost(s: string, from: nat, k: nat)
    requires from <= k <= |s| && SizeEndAt(s, k) >= 0
    ensures 0 <= SizeStartFrom(s, from) <= k
    decreases |s| - from
  {
    if from < k && SizeEndAt(s, from) < 0 {
      SizeStartFromLeftmost(s, from + 1, k);
    }
  }

  /** `s.match(/(\d+\.?\d*\s*(?:GB|MB))/i)?.[1]`. */
  function SizeMatch(s: string): (m: Option<string>)
  {
    SizeMatchAt(s, SizeStartFrom(s, 0))
  }

  /** The size match that starts at `i`, when `i` is the start the search returned. */
  function SizeMatchAt(s: string, i: int): (m: Option<string>)
    requires i <= |s|
  {
    // the second test never fails for the start of a match: see SizeStartFromHit
    if i < 0 || SizeEndAt(s, i) < 0 then None else Some(s[i..SizeEndAt(s, i)])
  }

  /** What a size match looks like: a piece of the text, digits first, a size unit last. */
  predicate IsSizeMatchOf(s: string, m: string)
  {
    |m| >= 3 && IsDigit(m[0]) && IsSizeUnit(m[|m| - 2], m[|m| - 1]) && Contains(s, m)
  }

  /** What the size matcher returns is a size match of the text. */
  lemma SizeMatchFound(s: string)
    ensures SizeMatch(s).Some? ==> IsSizeMatchOf(s, SizeMatch(s).value)
  {
    SizeMatchAtFound(s, SizeStartFrom(s, 0));
  }

  lemma SizeMatchAtFound(s: string, i: int)
    requires i <= |s|
    ensures SizeMatchAt(s, i).Some? ==> IsSizeMatchOf(s, SizeMatchAt(s, i).value)
  {
    if i >= 0 && SizeEndAt(s, i) >= 0 {
      SizeSlice(s, i, SizeEndAt(s, i));
    }
  }

  lemma SizeSlice(s: string, i: nat, e: nat)
    requires i + 3 <= e <= |s| && IsDigit(s[i]) && IsSizeUnit(s[e - 2], s[e - 1])
    ensures IsSizeMatchOf(s, s[i..e])
  {
    assert OccursAt(s, s[i..e], i);
    ContainsAt(s, s[i..e], i);
  }

  /** A size token anywhere in the text means the size matcher succeeds. */
  lemma SizeMatchComplete(s: string, i: nat, a: nat, b: nat, c: nat, d: nat)
    requires SizeReading(s, i, a, b, c, d)
    ensures SizeMatch(s).Some?
  {
    SizeEndAtComplete(s, i, a, b, c, d);
    SizeStartFromLeftmost(s, 0, i);
    SizeStartFromHit(s, 0);
  }

  /**
   * The size matcher finds a match exactly when the text holds a reading of the size
   * pattern, and what it returns is the reading that starts leftmost.
   */
  lemma SizeMatchIsLeftmostToken(s: string)
    ensures SizeMatch(s).Some? <==> exists i, a, b, c, d :: SizeReading(s, i, a, b, c, d)
    ensures SizeMatch(s).Some? ==>
      exists i, a, b, c, d :: SizeReading(s, i, a, b, c, d) && SizeMatch(s).value == s[i..d + 2]
                              && forall i', a', b', c', d' :: SizeReading(s, i', a', b', c', d') ==> i <= i'
  {
    SizeMatchHasReading(s);
    SizeMatchLeftmostReading(s);
  }

  lemma SizeMatchHasReading(s: string)
    ensures SizeMatch(s).Some? <==> exists i, a, b, c, d :: SizeReading(s, i, a, b, c, d)
  {
    var i := SizeStartFrom(s, 0);
    SizeStartFromHit(s, 0);
    SizeStartBeforeReadings(s);
    if i >= 0 {
      assert SizeReadingEnds(s, i, SizeEndAt(s, i));
    }
  }

  lemma SizeMatchLeftmostReading(s: string)
    ensures SizeMatch(s).Some? ==>
      exists i, a, b, c, d :: SizeReading(s, i, a, b, c, d) && SizeMatch(s).value == s[i..d + 2]
                              && forall i', a', b', c', d' :: SizeReading(s, i', a', b', c', d') ==> i <= i'
  {
    var i := SizeStartFrom(s, 0);
    SizeStartFromHit(s, 0);
    if i >= 0 {
      var e := SizeEndAt(s, i);
      assert SizeReadingEnds(s, i, e);
      var a, b, c, d :| SizeReading(s, i, a, b, c, d) && e == d + 2;
      assert SizeMatch(s) == Some(s[i..d + 2]);
      SizeStartIsLeftmost(s, i);
    }
  }

  lemma SizeStartIsLeftmost(s: string, i: int)
    requires i == SizeStartFrom(s, 0)
    ensures forall i', a', b', c', d' :: SizeReading(s, i', a', b', c', d') ==> i <= i'
  {
    SizeStartBeforeReadings(s);
  }

  /** The search stops at or before the start of every reading of the size pattern. */
  lemma SizeStartBeforeReadings(s: string)
    ensures forall i, a, b, c, d :: SizeReading(s, i, a, b, c, d) ==> 0 <= SizeStartFrom(s, 0) <= i
  {
    forall i, a, b, c, d | SizeReading(s, i, a, b, c, d)
      ensures 0 <= SizeStartFrom(s, 0) <= i
    {
      SizeEndAtComplete(s, i, a, b, c, d);
      SizeStartFromLeftmost(s, 0, i);
    }
  }

  // ------------------------------------------------------------------- year

  predicate FourDigitsAt(s: string, i: int)
  {
    0 <= i && i + 4 <= |s| && AllDigits(s, i, i + 4)
  }

  /** Leftmost `\d{4}` at or after `from`, or -1. */
  function YearStartFrom(s: string, from: nat): (i: int)
    requires from <= |s|
    ensures i == -1 || (from <= i && FourDigitsAt(s, i))
    ensures forall k :: from <= k && (i < 0 || k < i) ==> !FourDigitsAt(s, k)
    decreases |s| - from
  {
    if from + 4 > |s| then -1
    else if FourDigitsAt(s, from) then from
    else YearStartFrom(s, from + 1)
  }

  /** `s.match(/\d{4}/)?.[0]`: the first run of four digits. */
  function YearMatch(s: string): (m: Option<string>)
    ensures m.Some? <==> exists i :: FourDigitsAt(s, i)
    ensures m.Some? ==> |m.value| == 4 && forall k :: 0 <= k < 4 ==> IsDigit(m.value[k])
    ensures m.Some? ==> exists i :: FourDigitsAt(s, i) && m.value == s[i..i + 4]
                                    && forall k :: 0 <= k < i ==> !FourDigitsAt(s, k)
  {
    var i := YearStartFrom(s, 0);
    if i < 0 then None else Some(s[i..i + 4])
  }

  // ----------------------------------------------------- URLs in script text

  /** A character of `[^\s'"]`. */
  predicate IsUrlChar(c: char)
  {
    !IsJsSpace(c) && c != '\'' && c != '"'
  }

  function UrlRunEnd(s: string, i: nat): (j: nat)
    requires i <= |s|
    ensures i <= j <= |s|
    ensures forall k :: i <= k < j ==> IsUrlChar(s[k])
    ensures j == |s| || !IsUrlChar(s[j])
    decreases |s| - i
  {
    if i < |s| && IsUrlChar(s[i]) then UrlRunEnd(s, i + 1) else i
  }

  /** What every match of `https?:\/\/[^\s'"]+` looks like: a scheme, then at least one URL character. */
  predicate IsUrlMatch(m: string)
  {
    ((StartsWith(m, "https://") && |m| > 8) || (StartsWith(m, "http://") && |m| > 7))
    && forall k :: 0 <= k < |m| ==> IsUrlChar(m[k])
  }

  /** The scheme `p` occurs at `i` and a URL character follows it. */
  predicate UrlHeadAt(s: string, i: int, p: string)
  {
    OccursAt(s, p, i) && i + |p| < |s| && IsUrlChar(s[i + |p|])
  }

  /** A scheme followed by a non-empty run of URL characters is a match. */
  lemma SchemeRun(s: string, i: nat, p: string)
    requires p == "https://" || p == "http://"
    requires UrlHeadAt(s, i, p)
    ensures IsUrlMatch(s[i..UrlRunEnd(s, i + |p|)])
  {
    var e := UrlRunEnd(s, i + |p|);
    var m := s[i..e];
    assert m[..|p|] == p;
    forall k | 0 <= k < |m| ensures IsUrlChar(m[k]) {
      if k < |p| {
        assert m[k] == p[k];
      } else {
        assert m[k] == s[i + k];
      }
    }
  }

  /** Every match starting at `i` begins with a scheme and a URL character. */
  lemma UrlMatchHead(s: string, i: nat, j: nat)
    requires i <= j <= |s|
    ensures IsUrlMatch(s[i..j]) ==> UrlHeadAt(s, i, "https://") || UrlHeadAt(s, i, "http://")
  {
    var m := s[i..j];
    if IsUrlMatch(m) {
      if StartsWith(m, "https://") && |m| > 8 {
        assert s[i..i + 8] == m[..8] && s[i + 8] == m[8];
      } else {
        assert s[i..i + 7] == m[..7] && s[i + 7] == m[7];
      }
    }
  }

  /**
   * End (exclusive) of the match of `https?:\/\/[^\s'"]+` that starts at `i`, or -1.
   * The match runs as far as URL characters go, and -1 means that no match starts at `i`.
   */
  function UrlEndAt(s: string, i: nat): (e: int)
    requires i <= |s|
    ensures e >= 0 ==> i < e <= |s| && IsUrlMatch(s[i..e])
    ensures e >= 0 ==> e == |s| || !IsUrlChar(s[e])
    ensures e < 0 ==> forall j :: i <= j <= |s| ==> !IsUrlMatch(s[i..j])
  {
    if UrlHeadAt(s, i, "https://") then
      SchemeRun(s, i, "https://");
      UrlRunEnd(s, i + 8)
    else if UrlHeadAt(s, i, "http://") then
      SchemeRun(s, i, "http://");
      UrlRunEnd(s, i + 7)
    else
      assert forall j :: i <= j <= |s| ==> !IsUrlMatch(s[i..j]) by {
        forall j | i <= j <= |s| ensures !IsUrlMatch(s[i..j]) {
          UrlMatchHead(s, i, j);
        }
      }
      -1
  }

  /** The successive non-overlapping matches at or after `from`, left to right. */
  function UrlMatchesFrom(s: string, from: nat): (r: seq<string>)
    requires from <= |s|
    decreases |s| - from
  {
    if from == |s| then []
    else
      var e := UrlEndAt(s, from);
      if e >= 0 then [s[from..e]] + UrlMatchesFrom(s, e)
      else UrlMatchesFrom(s, from + 1)
  }

  /** Every piece the scan returns is a match and a piece of the text. */
  lemma {:induction false} UrlMatchesFromSound(s: string, from: nat)
    requires from <= |s|
    ensures forall m :: m in UrlMatchesFrom(s, from) ==> IsUrlMatch(m) && Contains(s, m)
    decreases |s| - from
  {
    if from < |s| {
      var e := UrlEndAt(s, from);
      if e >= 0 {
        UrlMatchesFromSound(s, e);
        ContainsAt(s, s[from..e], from);
      } else {
        UrlMatchesFromSound(s, from + 1);
      }
    }
  }

  /** `content.match(/https?:\/\/[^\s'"]+/g)`, with `null` read as no matches. */
  function UrlMatches(s: string): (r: seq<string>)
    ensures forall m :: m in r ==> IsUrlMatch(m) && Contains(s, m)
  {
    UrlMatchesFromSound(s, 0);
    UrlMatchesFrom(s, 0)
  }

  /**
   * The scan's first match is the one starting leftmost at or after `from`, and the
   * scan goes on where that match ends.
   */
  lemma {:induction false} UrlMatchesFromFirst(s: string, from: nat, i: nat)
    requires from <= i <= |s| && UrlEndAt(s, i) >= 0
    requires forall k :: from <= k < i ==> UrlEndAt(s, k) < 0
    ensures UrlMatchesFrom(s, from) == [s[i..UrlEndAt(s, i)]] + UrlMatchesFrom(s, UrlEndAt(s, i))
    decreases i - from
  {
    if from < i {
      assert UrlMatchesFrom(s, from) == UrlMatchesFrom(s, from + 1);
      UrlMatchesFromFirst(s, from + 1, i);
    }
  }

  /** No match starts at or after `from`. */
  predicate NoUrlFrom(s: string, from: nat)
    requires from <= |s|
  {
    forall k :: from <= k <= |s| ==> UrlEndAt(s, k) < 0
  }

  lemma NoUrlFromStep(s: string, from: nat)
    requires from < |s|
    ensures NoUrlFrom(s, from) <==> UrlEndAt(s, from) < 0 && NoUrlFrom(s, from + 1)
  {
  }

  /** The scan from `from` finds nothing exactly when no match starts at or after `from`. */
  lemma {:induction false} UrlMatchesFromNone(s: string, from: nat)
    requires from <= |s|
    ensures UrlMatchesFrom(s, from) == [] <==> NoUrlFrom(s, from)
    decreases |s| - from
  {
    if from == |s| {
      assert UrlMatchesFrom(s, from) == [];
      assert !UrlHeadAt(s, from, "https://") && !UrlHeadAt(s, from, "http://");
    } else {
      NoUrlFromStep(s, from);
      if UrlEndAt(s, from) >= 0 {
        assert UrlMatchesFrom(s, from) != [];
      } else {
        UrlMatchesFromNone(s, from + 1);
        assert UrlMatchesFrom(s, from) == UrlMatchesFrom(s, from + 1);
      }
    }
  }

  /** The global scan comes back empty exactly when no URL match occurs anywhere in the text. */
  lemma UrlMatchesEmpty(s: string)
    ensures UrlMatches(s) == [] <==> forall i, j :: 0 <= i <= j <= |s| ==> !IsUrlMatch(s[i..j])
  {
    UrlMatchesFromNone(s, 0);
    if UrlMatches(s) != [] {
      assert !NoUrlFrom(s, 0);
      var k :| 0 <= k <= |s| && UrlEndAt(s, k) >= 0;
      assert IsUrlMatch(s[k..UrlEndAt(s, k)]);
    } else {
      assert NoUrlFrom(s, 0);
      forall i, j | 0 <= i <= j <= |s| ensures !IsUrlMatch(s[i..j]) {
        assert UrlEndAt(s, i) < 0;
      }
    }
  }

  /** A scan that finds one match at `i`, and no other start, returns just that match. */
  lemma UrlMatchesOne(s: string, i: nat)
    requires i <= |s| && UrlEndAt(s, i) >= 0
    requires forall k :: 0 <= k < i ==> UrlEndAt(s, k) < 0
    requires NoUrlFrom(s, UrlEndAt(s, i))
    ensures UrlMatches(s) == [s[i..UrlEndAt(s, i)]]
  {
    UrlMatchesFromFirst(s, 0, i);
    UrlMatchesFromNone(s, UrlEndAt(s, i));
  }

  /** A URL quoted in an `href='…'` attribute is the one match the scan finds there. */
  lemma UrlMatchesQuoted(u: string)
    requires IsUrlMatch(u)
    ensures UrlMatches("href='" + u + "'") == [u]
  {
    var s := "href='" + u + "'";
    var n := 6 + |u|;
    assert s[..6] == "href='" && s[6..n] == u && s[n] == '\'';
    forall k | 0 <= k < 6 ensures UrlEndAt(s, k) < 0 {
      assert s[k] == "href='"[k] && s[k + 1] == ("href='" + [u[0]])[k + 1];
      SchemeHead(s, "https://", k);
      SchemeHead(s, "http://", k);
    }
    assert UrlEndAt(s, 6) >= 0;
    var e := UrlEndAt(s, 6);
    assert e == n;
    forall k | n <= k <= |s| ensures UrlEndAt(s, k) < 0 {
      assert !UrlHeadAt(s, k, "https://") && !UrlHeadAt(s, k, "http://");
    }
    assert NoUrlFrom(s, n);
    UrlMatchesOne(s, 6);
  }

  /** A scheme occurs only where its first two characters do. */
  lemma SchemeHead(s: string, p: string, i: int)
    requires p == "https://" || p == "http://"
    ensures OccursAt(s, p, i) ==> s[i] == 'h' && s[i + 1] == 't'
  {
    if OccursAt(s, p, i) {
      assert s[i..i + |p|][0] == s[i] && s[i..i + |p|][1] == s[i + 1];
    }
  }

  /** `u.replace(/\\/g, '')`: every backslash removed, every other character kept in order. */
  function StripBackslashes(u: string): (r: string)
    ensures '\\' !in r
    ensures |r| <= |u|
    ensures forall c :: c != '\\' ==> multiset(r)[c] == multiset(u)[c]
  {
    if u == [] then []
    else
      assert u == [u[0]] + u[1..];
      (if u[0] == '\\' then [] else [u[0]]) + StripBackslashes(u[1..])
  }

  /** Backslash removal works piece by piece. */
  lemma {:induction false} StripAppend(a: string, b: string)
    ensures StripBackslashes(a + b) == StripBackslashes(a) + StripBackslashes(b)
    decreases |a|
  {
    if a != [] {
      assert (a + b)[1..] == a[1..] + b;
      assert (a + b)[0] == a[0];
      StripAppend(a[1..], b);
    } else {
      assert a + b == b;
    }
  }

  /** A string without backslashes is left as it is. */
  lemma {:induction false} StripWithout(u: string)
    requires '\\' !in u
    ensures StripBackslashes(u) == u
    decreases |u|
  {
    if u != [] {
      assert u[0] in u;
      assert forall c :: c in u[1..] ==> c in u;
      StripWithout(u[1..]);
      assert u == [u[0]] + u[1..];
    }
  }

  /** Backslash removal adds no character. */
  lemma StripKeepsOut(u: string, c: char)
    requires c != '\\' && c !in u
    ensures c !in StripBackslashes(u)
  {
    assert multiset(StripBackslashes(u))[c] == multiset(u)[c] == 0;
  }
}
