/**
 * The Sonic Cloud transformation: legacy storage-node URLs (`https://google.com/serverNN/1:/…`)
 * are rewritten to the canonical streaming host, and URLs on that host get their file
 * extension turned into an `ext` query parameter, followed by a fixed chain of
 * query-mark fixups.
 */
module UrlTransform {
  import opened Strings

  /** One row of the transformation matrix: any of `search` as a prefix is swapped for `replace`. */
  datatype UrlMappingRule = UrlMappingRule(search: seq<string>, replace: string)

  const UrlMappings: seq<UrlMappingRule> := [
    UrlMappingRule(["https://google.com/server11/1:/", "https://google.com/server12/1:/", "https://google.com/server13/1:/"],
                   "https://cloud.sonic-cloud.online/server1/"),
    UrlMappingRule(["https://google.com/server21/1:/", "https://google.com/server22/1:/", "https://google.com/server23/1:/"],
                   "https://cloud.sonic-cloud.online/server2/"),
    UrlMappingRule(["https://google.com/server3/1:/"], "https://cloud.sonic-cloud.online/server3/"),
    UrlMappingRule(["https://google.com/server4/1:/"], "https://cloud.sonic-cloud.online/server4/"),
    UrlMappingRule(["https://google.com/server5/1:/"], "https://cloud.sonic-cloud.online/server5/")
  ]

  /** The canonical streaming host, looked for as a substring. */
  const CloudHost: string := "sonic-cloud.online"

  // ------------------------------------------------------------- prefix rules

  /** Index of the first pattern in `patterns[from..]` that `url` starts with, or -1. */
  function FirstPrefixFrom(url: string, patterns: seq<string>, from: nat): (j: int)
    requires from <= |patterns|
    ensures j == -1 || (from <= j < |patterns| && StartsWith(url, patterns[j]))
    ensures forall k :: from <= k < |patterns| && (j < 0 || k < j) ==> !StartsWith(url, patterns[k])
    decreases |patterns| - from
  {
    if from == |patterns| then -1
    else if StartsWith(url, patterns[from]) then from
    else FirstPrefixFrom(url, patterns, from + 1)
  }

  function FirstPrefix(url: string, patterns: seq<string>): int
  {
    FirstPrefixFrom(url, patterns, 0)
  }

  predicate Matches(url: string, rule: UrlMappingRule)
  {
    FirstPrefix(url, rule.search) >= 0
  }

  /** The effect of one rule: its first matching pattern is swapped for the replacement. */
  function ApplyRule(url: string, rule: UrlMappingRule): string
  {
    var j := FirstPrefix(url, rule.search);
    if j < 0 then url else rule.replace + url[|rule.search[j]|..]
  }

  predicate NoRuleMatches(url: string, rules: seq<UrlMappingRule>)
  {
    forall k :: 0 <= k < |rules| ==> !Matches(url, rules[k])
  }

  /** The first rule (in table order) that has a matching pattern is applied; the rest are not looked at. */
  function MapPrefix(url: string, rules: seq<UrlMappingRule>): string
    decreases |rules|
  {
    if rules == [] then url
    else if Matches(url, rules[0]) then ApplyRule(url, rules[0])
    else MapPrefix(url, rules[1..])
  }

  // --------------------------------------------------------- cloud fixups

  /** `/\.ext(\?|$)/` matches at `i`: the dot and extension, followed by `?` or the end of the string. */
  predicate ExtAt(s: string, ext: string, i: int)
  {
    OccursAt(s, "." + ext, i) && (i + |ext| + 1 == |s| || s[i + |ext| + 1] == '?')
  }

  function ExtIndexFrom(s: string, ext: string, from: nat): (i: int)
    requires from <= |s|
    ensures i == -1 || (from <= i && ExtAt(s, ext, i))
    ensures forall k :: from <= k && (i < 0 || k < i) ==> !ExtAt(s, ext, k)
    decreases |s| - from
  {
    if from == |s| then -1
    else if ExtAt(s, ext, from) then from
    else ExtIndexFrom(s, ext, from + 1)
  }

  /** `s.replace(/\.ext(\?|$)/, '?ext=' + ext)`: the leftmost match (dot, extension and any `?` after it) becomes `?ext=<ext>`. */
  function ReplaceExt(s: string, ext: string): (r: string)
    ensures |r| >= |s|
    ensures IndexOf(s, "." + ext) < 0 ==> r == s
    ensures r == s <==> forall k :: 0 <= k <= |s| ==> !ExtAt(s, ext, k)
  {
    var i := ExtIndexFrom(s, ext, 0);
    if i < 0 then s
    else
      var end := if i + |ext| + 1 == |s| then |s| else i + |ext| + 2;
      s[..i] + "?ext=" + ext + s[end..]
  }

  /**
   * The rewrite at the leftmost match of `/\.ext(\?|$)/`: a final `.ext` becomes `?ext=<ext>`,
   * and a `.ext?` becomes `?ext=<ext>` with the `?` consumed, so what followed the `?`
   * is joined straight onto the extension.
   */
  lemma ReplaceExtLeftmost(s: string, ext: string, i: nat)
    requires ExtAt(s, ext, i) && forall k :: 0 <= k < i ==> !ExtAt(s, ext, k)
    ensures i + |ext| + 1 == |s| ==> ReplaceExt(s, ext) == s[..i] + "?ext=" + ext
    ensures i + |ext| + 1 < |s| ==>
      s[i + |ext| + 1] == '?' && ReplaceExt(s, ext) == s[..i] + "?ext=" + ext + s[i + |ext| + 2..]
  {
    var j := ExtIndexFrom(s, ext, 0);
    assert j >= 0 && !(j < i) && !(i < j);
    var end := if i + |ext| + 1 == |s| then |s| else i + |ext| + 2;
    assert ReplaceExt(s, ext) == s[..i] + "?ext=" + ext + s[end..];
  }

  /** The query-mark fixups applied, in order, to a URL on the streaming host. */
  function NormalizeCloud(u: string): (r: string)
    ensures |r| >= |u| - 1
  {
    var a := ReplaceExt(ReplaceExt(u, "mp4"), "mkv");
    var b := ReplaceExt(a, "zip");
    var c := ReplaceFirst(ReplaceFirst(ReplaceFirst(b, "??", "?"), "?ext=", "&ext="), "?bot=", "&bot=");
    if !Contains(c, "?") && Contains(c, "&") then ReplaceFirst(c, "&", "?") else c
  }

  /** `transformUrl(raw)`. */
  function Transform(raw: string): (r: string)
    ensures r == "" <==> raw == "" || StartsWith(raw, "#")
  {
    if raw == "" || StartsWith(raw, "#") then ""
    else
      var m := MapPrefix(raw, UrlMappings);
      MapPrefixNonEmpty(raw, UrlMappings);
      if Contains(m, CloudHost) then NormalizeCloud(m) else m
  }

  // ------------------------------------------------------------ the table

  // Every replacement is on `https://cloud…` and every pattern on `https://google…`: they part at index 8.

  predicate ReplacementsAreCloud(rules: seq<UrlMappingRule>)
  {
    forall k :: 0 <= k < |rules| ==> |rules[k].replace| > 8 && rules[k].replace[8] == 'c'
  }

  predicate SearchesAreLegacy(rules: seq<UrlMappingRule>)
  {
    forall k, b :: 0 <= k < |rules| && 0 <= b < |rules[k].search| ==>
      |rules[k].search[b]| > 8 && rules[k].search[b][8] == 'g'
  }

  lemma TableShape()
    ensures ReplacementsAreCloud(UrlMappings) && SearchesAreLegacy(UrlMappings)
  {
    TableReplacements();
    forall k | 0 <= k < |UrlMappings| ensures RuleIsLegacy(UrlMappings[k]) {
      TableSearches(k);
    }
  }

  lemma TableReplacements()
    ensures ReplacementsAreCloud(UrlMappings)
  {
    forall k | 0 <= k < |UrlMappings| ensures |UrlMappings[k].replace| > 8 && UrlMappings[k].replace[8] == 'c' {
      ReplacementShape(k);
    }
  }

  predicate RuleIsLegacy(rule: UrlMappingRule)
  {
    forall b :: 0 <= b < |rule.search| ==> |rule.search[b]| > 8 && rule.search[b][8] == 'g'
  }

  lemma TableSearches(k: nat)
    requires k < |UrlMappings|
    ensures RuleIsLegacy(UrlMappings[k])
  {
  }

  lemma MapPrefixNonEmpty(url: string, rules: seq<UrlMappingRule>)
    requires url != ""
    ensures MapPrefix(url, rules) != "" || (exists k :: 0 <= k < |rules| && rules[k].replace == "")
  {
    TableShape();
    if rules != [] && !Matches(url, rules[0]) {
      MapPrefixNonEmpty(url, rules[1..]);
      if MapPrefix(url, rules[1..]) == "" {
        var k :| 0 <= k < |rules[1..]| && rules[1..][k].replace == "";
        assert rules[k + 1].replace == "";
      }
    } else if rules != [] && rules[0].replace == "" {
      assert rules[0].replace == "";
    }
  }

  /** A URL already on the streaming host is not matched by any legacy pattern. */
  lemma CloudNotRemapped(s: string, rules: seq<UrlMappingRule>)
    requires |s| > 8 && s[8] == 'c' && SearchesAreLegacy(rules)
    ensures NoRuleMatches(s, rules)
  {
    forall k | 0 <= k < |rules| ensures !Matches(s, rules[k]) {
      var j := FirstPrefix(s, rules[k].search);
    }
  }

  /** Patterns are told apart by the characters at 25 and 26: the rule's digit, then the pattern's. */
  lemma TableCodes()
    ensures forall a, b :: 0 <= a < |UrlMappings| && 0 <= b < |UrlMappings[a].search| ==>
      |UrlMappings[a].search[b]| > 26 && UrlMappings[a].search[b][0] == 'h'
      && UrlMappings[a].search[b][25] as int == '1' as int + a
      && (|UrlMappings[a].search| == 1 || UrlMappings[a].search[b][26] as int == '1' as int + b)
  {
  }

  /** Rule `a` sends its patterns to `server<a+1>` on the streaming host. */
  lemma ReplacementShape(a: nat)
    requires a < |UrlMappings|
    ensures UrlMappings[a].replace == "https://cloud.sonic-cloud.online/server" + [('1' as int + a) as char] + "/"
  {
  }

  /** The common part of the replacements, cut around the host name. */
  lemma CloudServerParts()
    ensures "https://cloud.sonic-cloud.online/server" == "https://cloud." + CloudHost + "/server"
  {
  }

  /** Every replacement names the streaming host right after `https://cloud.`. */
  lemma ReplacementHasHost(a: nat)
    requires a < |UrlMappings|
    ensures OccursAt(UrlMappings[a].replace, CloudHost, 14)
  {
    var x := "https://cloud." + CloudHost + "/server";
    var tail := [('1' as int + a) as char] + "/";
    ReplacementShape(a);
    CloudServerParts();
    assert UrlMappings[a].replace == x + tail;
    OccursAtMiddle("https://cloud.", CloudHost, "/server");
    OccursAtAppend(x, tail, CloudHost, 14);
  }

  /** A URL starts with at most one pattern of the table. */
  lemma PatternsExclusive(s: string, a: nat, b: nat, a': nat, b': nat)
    requires a < |UrlMappings| && b < |UrlMappings[a].search| && StartsWith(s, UrlMappings[a].search[b])
    requires a' < |UrlMappings| && b' < |UrlMappings[a'].search| && StartsWith(s, UrlMappings[a'].search[b'])
    ensures a == a' && b == b'
  {
    TableCodes();
    var p, q := UrlMappings[a].search[b], UrlMappings[a'].search[b'];
    assert s[25] == p[25] && s[25] == q[25] by {
      assert s[..|p|][25] == p[25] && s[..|q|][25] == q[25];
    }
    assert s[26] == p[26] && s[26] == q[26] by {
      assert s[..|p|][26] == p[26] && s[..|q|][26] == q[26];
    }
  }

  // ------------------------------------------------- facts about MapPrefix

  lemma {:induction false} MapPrefixUnmatched(url: string, rules: seq<UrlMappingRule>)
    requires NoRuleMatches(url, rules)
    ensures MapPrefix(url, rules) == url
    decreases |rules|
  {
    if rules != [] {
      assert NoRuleMatches(url, rules[1..]) by {
        forall k | 0 <= k < |rules[1..]| ensures !Matches(url, rules[1..][k]) {
          assert rules[1..][k] == rules[k + 1];
        }
      }
      MapPrefixUnmatched(url, rules[1..]);
    }
  }

  lemma {:induction false} MapPrefixMatchedIsCloud(url: string, rules: seq<UrlMappingRule>)
    requires ReplacementsAreCloud(rules) && !NoRuleMatches(url, rules)
    ensures var m := MapPrefix(url, rules); |m| > 8 && m[8] == 'c'
    decreases |rules|
  {
    if !Matches(url, rules[0]) {
      var k :| 0 <= k < |rules| && Matches(url, rules[k]);
      assert rules[1..][k - 1] == rules[k];
      assert ReplacementsAreCloud(rules[1..]) by {
        forall k' | 0 <= k' < |rules[1..]| ensures |rules[1..][k'].replace| > 8 && rules[1..][k'].replace[8] == 'c' {
          assert rules[1..][k'] == rules[k' + 1];
        }
      }
      MapPrefixMatchedIsCloud(url, rules[1..]);
    }
  }

  lemma {:induction false} MapPrefixSnoc(url: string, rules: seq<UrlMappingRule>, r: UrlMappingRule)
    ensures MapPrefix(url, rules + [r]) == if NoRuleMatches(url, rules) then ApplyRule(url, r) else MapPrefix(url, rules)
    decreases |rules|
  {
    if rules == [] {
      assert [] + [r] == [r];
      assert [r][1..] == [];
    } else {
      assert (rules + [r])[0] == rules[0];
      assert (rules + [r])[1..] == rules[1..] + [r];
      MapPrefixSnoc(url, rules[1..], r);
      if !Matches(url, rules[0]) {
        assert NoRuleMatches(url, rules) <==> NoRuleMatches(url, rules[1..]) by {
          forall k | 0 <= k < |rules[1..]| ensures rules[1..][k] == rules[k + 1] { }
        }
      }
    }
  }

  /** One pass of the outer loop: rule `i` acts on what the earlier rules left. */
  lemma MapPrefixStep(url: string, i: nat)
    requires i < |UrlMappings|
    ensures MapPrefix(url, UrlMappings[..i + 1]) == ApplyRule(MapPrefix(url, UrlMappings[..i]), UrlMappings[i])
  {
    var rs := UrlMappings[..i];
    assert UrlMappings[..i + 1] == rs + [UrlMappings[i]];
    MapPrefixSnoc(url, rs, UrlMappings[i]);
    TableShape();
    if NoRuleMatches(url, rs) {
      MapPrefixUnmatched(url, rs);
    } else {
      assert ReplacementsAreCloud(rs);
      MapPrefixMatchedIsCloud(url, rs);
      CloudNotRemapped(MapPrefix(url, rs), UrlMappings);
    }
  }

  lemma {:induction false} MapPrefixFirstMatch(url: string, rules: seq<UrlMappingRule>, a: nat)
    requires a < |rules| && Matches(url, rules[a])
    requires forall k :: 0 <= k < a ==> !Matches(url, rules[k])
    ensures MapPrefix(url, rules) == ApplyRule(url, rules[a])
    decreases a
  {
    if a > 0 {
      assert rules[1..][a - 1] == rules[a];
      MapPrefixFirstMatch(url, rules[1..], a - 1);
    }
  }

  // ----------------------------------------------------- the literal loops

  /**
   * `transformUrl` as written: the outer loop over the rules does not stop after a
   * replacement (the `break` only leaves the inner loop over one rule's patterns).
   * It still agrees with the first-match-wins `Transform`, because a rewritten URL
   * is on the streaming host and no later legacy pattern can match it.
   */
  method TransformUrl(raw: string) returns (r: string)
    ensures r == Transform(raw)
  {
    if raw == "" || StartsWith(raw, "#") {
      return "";
    }
    var finalUrl := raw;
    for i := 0 to |UrlMappings|
      invariant finalUrl == MapPrefix(raw, UrlMappings[..i])
    {
      var mapping := UrlMappings[i];
      ghost var before := finalUrl;
      for j := 0 to |mapping.search|
        invariant finalUrl == before
        invariant forall k :: 0 <= k < j ==> !StartsWith(before, mapping.search[k])
      {
        if StartsWith(finalUrl, mapping.search[j]) {
          ReplaceFirstAtStart(finalUrl, mapping.search[j], mapping.replace);
          finalUrl := ReplaceFirst(finalUrl, mapping.search[j], mapping.replace);
          break;
        }
      }
      assert finalUrl == ApplyRule(before, mapping);
      MapPrefixStep(raw, i);
    }
    assert UrlMappings[..|UrlMappings|] == UrlMappings;
    if Contains(finalUrl, CloudHost) {
      finalUrl := ReplaceExt(ReplaceExt(finalUrl, "mp4"), "mkv");
      finalUrl := ReplaceExt(finalUrl, "zip");
      finalUrl := ReplaceFirst(ReplaceFirst(ReplaceFirst(finalUrl, "??", "?"), "?ext=", "&ext="), "?bot=", "&bot=");
      if !Contains(finalUrl, "?") && Contains(finalUrl, "&") {
        finalUrl := ReplaceFirst(finalUrl, "&", "?");
      }
    }
    r := finalUrl;
  }

  // ------------------------------------------------------------ properties

  /** A URL with a listed legacy prefix has exactly that prefix swapped for its rule's replacement. */
  lemma MapPrefixListedPrefix(raw: string, a: nat, b: nat)
    requires a < |UrlMappings| && b < |UrlMappings[a].search|
    requires StartsWith(raw, UrlMappings[a].search[b])
    ensures MapPrefix(raw, UrlMappings) == UrlMappings[a].replace + raw[|UrlMappings[a].search[b]|..]
  {
    var j := FirstPrefix(raw, UrlMappings[a].search);
    if j != b {
      PatternsExclusive(raw, a, b, a, j);
    }
    forall k | 0 <= k < a ensures !Matches(raw, UrlMappings[k]) {
      var j' := FirstPrefix(raw, UrlMappings[k].search);
      if j' >= 0 {
        PatternsExclusive(raw, a, b, k, j');
      }
    }
    MapPrefixFirstMatch(raw, UrlMappings, a);
  }

  /** ... and, being then on the streaming host, it goes through the cloud normalization. */
  lemma TransformListedPrefix(raw: string, a: nat, b: nat)
    requires a < |UrlMappings| && b < |UrlMappings[a].search|
    requires StartsWith(raw, UrlMappings[a].search[b])
    ensures Transform(raw) == NormalizeCloud(UrlMappings[a].replace + raw[|UrlMappings[a].search[b]|..])
  {
    var p := UrlMappings[a].search[b];
    var rep := UrlMappings[a].replace;
    MapPrefixListedPrefix(raw, a, b);
    TableCodes();
    assert raw != "" && raw[0] == 'h' by {
      assert raw[..|p|][0] == p[0];
    }
    assert !StartsWith(raw, "#") by {
      assert raw[..1][0] == raw[0];
    }
    var m := rep + raw[|p|..];
    assert MapPrefix(raw, UrlMappings) == m;
    ReplacementHasHost(a);
    OccursAtAppend(rep, raw[|p|..], CloudHost, 14);
    ContainsAt(m, CloudHost, 14);
  }

  /** The extensions the cloud fixups turn into an `ext` query parameter. */
  predicate IsCloudExt(ext: string)
  {
    ext == "mp4" || ext == "mkv" || ext == "zip"
  }

  /** A final `.ext`, with no earlier `.ext`, is the one the extension rewrite replaces. */
  lemma ReplaceExtAtEnd(m: string, ext: string)
    requires IsCloudExt(ext) && !Contains(m, "." + ext)
    ensures ReplaceExt(m + "." + ext, ext) == m + "?ext=" + ext
  {
    var p := "." + ext;
    assert '.' !in ext;
    assert m + "." + ext == m + p;
    ReplaceDotExtAtEnd(m, p);
  }

  lemma ReplaceDotExtAtEnd(m: string, p: string)
    requires |p| >= 1 && p[0] == '.' && '.' !in p[1..] && !Contains(m, p)
    ensures ReplaceExt(m + p, p[1..]) == m + "?ext=" + p[1..]
  {
    var s, ext := m + p, p[1..];
    assert "." + ext == p;
    NoOccurrenceAcrossJoin(m, p, p);
    OccursAtMiddle(m, p, []);
    assert m + p + [] == s;
    assert ExtAt(s, ext, |m|);
    assert ExtIndexFrom(s, ext, 0) == |m|;
    assert s[..|m|] == m && s[|s|..] == [];
  }

  /** The rewrite for `.e` leaves `m + t` alone when neither part has `.e` and `t` cannot continue one. */
  lemma ReplaceExtSkips(m: string, t: string, e: string)
    requires IsCloudExt(e) && !Contains(m, "." + e)
    requires !Contains(t, "." + e)
    requires t != [] && t[0] !in e
    ensures ReplaceExt(m + t, e) == m + t
  {
    assert ("." + e)[1..] == e;
    NotContainsConcat(m, t, "." + e);
  }

  lemma OtherExtAbsent(ext: string, e: string)
    requires IsCloudExt(ext) && IsCloudExt(e) && e != ext
    ensures !Contains("." + ext, "." + e) && !Contains("?ext=" + ext, "." + e)
  {
    assert ("." + ext)[1..] == ext && ("." + e)[1..] == e;
    SameLengthContains("." + ext, "." + e);
    FirstCharAbsent("?ext=" + ext, "." + e);
  }

  /** Of the three extension rewrites, only the one for the final extension fires. */
  lemma ExtRewritesAtEnd(m: string, ext: string)
    requires IsCloudExt(ext)
    requires !Contains(m, ".mp4") && !Contains(m, ".mkv") && !Contains(m, ".zip")
    ensures ReplaceExt(ReplaceExt(ReplaceExt(m + "." + ext, "mp4"), "mkv"), "zip") == m + "?ext=" + ext
  {
    assert "." + "mp4" == ".mp4" && "." + "mkv" == ".mkv" && "." + "zip" == ".zip";
    if ext == "mp4" {
      ExtRewritesAtEndMp4(m);
    } else if ext == "mkv" {
      ExtRewritesAtEndMkv(m);
    } else {
      ExtRewritesAtEndZip(m);
    }
  }

  lemma ExtRewritesAtEndMp4(m: string)
    requires !Contains(m, "." + "mkv") && !Contains(m, "." + "mp4") && !Contains(m, "." + "zip")
    ensures ReplaceExt(ReplaceExt(ReplaceExt(m + "." + "mp4", "mp4"), "mkv"), "zip") == m + "?ext=" + "mp4"
  {
    var q := "?ext=" + "mp4";
    ReplaceExtAtEnd(m, "mp4");
    assert m + q == m + "?ext=" + "mp4";
    OtherExtAbsent("mp4", "mkv");
    ReplaceExtSkips(m, q, "mkv");
    OtherExtAbsent("mp4", "zip");
    ReplaceExtSkips(m, q, "zip");
  }

  lemma ExtRewritesAtEndMkv(m: string)
    requires !Contains(m, "." + "mkv") && !Contains(m, "." + "mp4") && !Contains(m, "." + "zip")
    ensures ReplaceExt(ReplaceExt(ReplaceExt(m + "." + "mkv", "mp4"), "mkv"), "zip") == m + "?ext=" + "mkv"
  {
    var d, q := "." + "mkv", "?ext=" + "mkv";
    assert m + d == m + "." + "mkv" && m + q == m + "?ext=" + "mkv";
    OtherExtAbsent("mkv", "mp4");
    ReplaceExtSkips(m, d, "mp4");
    ReplaceExtAtEnd(m, "mkv");
    OtherExtAbsent("mkv", "zip");
    ReplaceExtSkips(m, q, "zip");
  }

  lemma ExtRewritesAtEndZip(m: string)
    requires !Contains(m, "." + "mkv") && !Contains(m, "." + "mp4") && !Contains(m, "." + "zip")
    ensures ReplaceExt(ReplaceExt(ReplaceExt(m + "." + "zip", "mp4"), "mkv"), "zip") == m + "?ext=" + "zip"
  {
    var d := "." + "zip";
    assert m + d == m + "." + "zip";
    OtherExtAbsent("zip", "mp4");
    ReplaceExtSkips(m, d, "mp4");
    OtherExtAbsent("zip", "mkv");
    ReplaceExtSkips(m, d, "mkv");
    ReplaceExtAtEnd(m, "zip");
  }

  /** On `m?ext=e` with no other `?` or `&`, the query-mark fixups end where they started. */
  lemma QueryFixupsOnExt(m: string, ext: string)
    requires '?' !in m && '&' !in m && '?' !in ext && '&' !in ext
    ensures var b := m + "?ext=" + ext;
      var c := ReplaceFirst(ReplaceFirst(ReplaceFirst(b, "??", "?"), "?ext=", "&ext="), "?bot=", "&bot=");
      c == m + "&ext=" + ext && !Contains(c, "?") && Contains(c, "&") && ReplaceFirst(c, "&", "?") == b
  {
    var b := m + "?ext=" + ext;
    assert '?' !in "ext=" + ext;
    NoDoubleMark(m, "ext=" + ext);
    assert m + "?" + ("ext=" + ext) == b;
    var c := m + "&ext=" + ext;
    MarkBeforeExt(m, ext);
    FirstCharAbsent(c, "?bot=");
    FirstCharAbsent(c, "?");
    AmpToMark(m, ext);
  }

  lemma NoDoubleMark(m: string, r: string)
    requires '?' !in m && r != [] && '?' !in r
    ensures ReplaceFirst(m + "?" + r, "??", "?") == m + "?" + r
  {
    assert m + "?" + r == m + (['?'] + r);
    FirstCharAbsent(r, "??");
    IndexOfNearMiss('?', r, "??");
    IndexOfSkip(m, ['?'] + r, "??");
  }

  lemma MarkBeforeExt(m: string, ext: string)
    requires '?' !in m
    ensures ReplaceFirst(m + "?ext=" + ext, "?ext=", "&ext=") == m + "&ext=" + ext
  {
    var b := m + "?ext=" + ext;
    assert b == m + ("?ext=" + ext);
    IndexOfAtStart("?ext=" + ext, "?ext=");
    IndexOfSkip(m, "?ext=" + ext, "?ext=");
    assert b[..|m|] == m && b[|m| + 5..] == ext;
  }

  lemma AmpToMark(m: string, ext: string)
    requires '&' !in m
    ensures ReplaceFirst(m + "&ext=" + ext, "&", "?") == m + "?ext=" + ext
    ensures Contains(m + "&ext=" + ext, "&")
  {
    var c := m + "&ext=" + ext;
    assert c == m + ("&ext=" + ext);
    IndexOfAtStart("&ext=" + ext, "&");
    IndexOfSkip(m, "&ext=" + ext, "&");
    assert c[..|m|] == m && c[|m| + 1..] == "ext=" + ext;
  }

  /**
   * A file on the streaming host whose only extension is a final `.mp4`, `.mkv` or `.zip`
   * and which has no query yet ends up with the extension as its query: `…/name?ext=mp4`.
   */
  lemma NormalizeCloudFile(m: string, ext: string)
    requires IsCloudExt(ext)
    requires '?' !in m && '&' !in m
    requires !Contains(m, ".mp4") && !Contains(m, ".mkv") && !Contains(m, ".zip")
    ensures NormalizeCloud(m + "." + ext) == m + "?ext=" + ext
  {
    ExtRewritesAtEnd(m, ext);
    QueryFixupsOnExt(m, ext);
  }

  /** `.ext?` with no earlier `.ext` is replaced together with its `?`. */
  lemma ReplaceDotExtBeforeMark(m: string, p: string, q: string)
    requires |p| >= 1 && p[0] == '.' && '.' !in p[1..] && !Contains(m, p)
    ensures ReplaceExt(m + (p + "?" + q), p[1..]) == m + ("?ext=" + p[1..] + q)
  {
    var s, ext := m + (p + "?" + q), p[1..];
    MarkJoinSlices(m, p, q);
    NoExtBeforeJoin(m, p + "?" + q, p);
    assert ExtAt(s, ext, |m|);
    ReplaceExtLeftmost(s, ext, |m|);
  }

  lemma MarkJoinSlices(m: string, p: string, q: string)
    ensures var s := m + (p + "?" + q);
      s[..|m|] == m && s[|m|..|m| + |p|] == p && s[|m| + |p|] == '?' && s[|m| + |p| + 1..] == q
  {
  }

  /** No `.ext` match starts inside `m` when `m` has no `.ext` and what follows starts with a dot. */
  lemma NoExtBeforeJoin(m: string, t: string, p: string)
    requires |p| >= 1 && p[0] == '.' && '.' !in p[1..] && !Contains(m, p) && t != [] && t[0] == '.'
    ensures forall k :: 0 <= k < |m| ==> !ExtAt(m + t, p[1..], k)
  {
    assert "." + p[1..] == p;
    NoOccurrenceAcrossJoin(m, t, p);
  }

  /** A text after a `?` that holds no dot has no `.mp4`, `.mkv` or `.zip`, before or after the rewrite. */
  lemma OtherExtAbsentBeforeMark(ext: string, e: string, q: string)
    requires IsCloudExt(ext) && IsCloudExt(e) && e != ext && '.' !in q
    ensures !Contains("." + ext + "?" + q, "." + e) && !Contains("?ext=" + ext + q, "." + e)
  {
    assert ("." + e)[1..] == e;
    SameLengthContains("." + ext, "." + e);
    FirstCharAbsent("?" + q, "." + e);
    NotContainsConcat("." + ext, "?" + q, "." + e);
    assert "." + ext + ("?" + q) == "." + ext + "?" + q;
    FirstCharAbsent("?ext=" + ext + q, "." + e);
  }

  /** Of the three extension rewrites on `m.ext?q`, only the one for `ext` fires, and it consumes the `?`. */
  lemma ExtRewritesBeforeMark(m: string, ext: string, q: string)
    requires IsCloudExt(ext) && '.' !in q
    requires !Contains(m, ".mp4") && !Contains(m, ".mkv") && !Contains(m, ".zip")
    ensures ReplaceExt(ReplaceExt(ReplaceExt(m + ("." + ext + "?" + q), "mp4"), "mkv"), "zip") == m + ("?ext=" + ext + q)
  {
    assert "." + "mp4" == ".mp4" && "." + "mkv" == ".mkv" && "." + "zip" == ".zip";
    if ext == "mp4" {
      ExtRewritesBeforeMarkMp4(m, q);
    } else if ext == "mkv" {
      ExtRewritesBeforeMarkMkv(m, q);
    } else {
      ExtRewritesBeforeMarkZip(m, q);
    }
  }

  lemma ExtRewritesBeforeMarkMp4(m: string, q: string)
    requires '.' !in q
    requires !Contains(m, "." + "mp4") && !Contains(m, "." + "mkv") && !Contains(m, "." + "zip")
    ensures ReplaceExt(ReplaceExt(ReplaceExt(m + ("." + "mp4" + "?" + q), "mp4"), "mkv"), "zip") == m + ("?ext=" + "mp4" + q)
  {
    var t1 := "?ext=" + "mp4" + q;
    RewriteBeforeMark(m, "mp4", q);
    OtherExtAbsentBeforeMark("mp4", "mkv", q);
    ReplaceExtSkips(m, t1, "mkv");
    OtherExtAbsentBeforeMark("mp4", "zip", q);
    ReplaceExtSkips(m, t1, "zip");
  }

  lemma ExtRewritesBeforeMarkMkv(m: string, q: string)
    requires '.' !in q
    requires !Contains(m, "." + "mp4") && !Contains(m, "." + "mkv") && !Contains(m, "." + "zip")
    ensures ReplaceExt(ReplaceExt(ReplaceExt(m + ("." + "mkv" + "?" + q), "mp4"), "mkv"), "zip") == m + ("?ext=" + "mkv" + q)
  {
    var t0, t1 := "." + "mkv" + "?" + q, "?ext=" + "mkv" + q;
    OtherExtAbsentBeforeMark("mkv", "mp4", q);
    ReplaceExtSkips(m, t0, "mp4");
    RewriteBeforeMark(m, "mkv", q);
    OtherExtAbsentBeforeMark("mkv", "zip", q);
    ReplaceExtSkips(m, t1, "zip");
  }

  lemma ExtRewritesBeforeMarkZip(m: string, q: string)
    requires '.' !in q
    requires !Contains(m, "." + "mp4") && !Contains(m, "." + "mkv") && !Contains(m, "." + "zip")
    ensures ReplaceExt(ReplaceExt(ReplaceExt(m + ("." + "zip" + "?" + q), "mp4"), "mkv"), "zip") == m + ("?ext=" + "zip" + q)
  {
    var t0 := "." + "zip" + "?" + q;
    OtherExtAbsentBeforeMark("zip", "mp4", q);
    ReplaceExtSkips(m, t0, "mp4");
    OtherExtAbsentBeforeMark("zip", "mkv", q);
    ReplaceExtSkips(m, t0, "mkv");
    RewriteBeforeMark(m, "zip", q);
  }

  /** The rewrite for the extension itself, in the grouping the chain above uses. */
  lemma RewriteBeforeMark(m: string, ext: string, q: string)
    requires IsCloudExt(ext) && !Contains(m, "." + ext)
    ensures ReplaceExt(m + ("." + ext + "?" + q), ext) == m + ("?ext=" + ext + q)
  {
    var p := "." + ext;
    assert p[1..] == ext && '.' !in ext;
    ReplaceDotExtBeforeMark(m, p, q);
  }

  /**
   * A file link on the streaming host that already carries a query loses its `?`: the
   * fixups turn `name.ext?q` into `name?ext=<ext>q`, so the first parameter of `q` is
   * joined onto the `ext` value.
   */
  lemma NormalizeCloudFileQuery(m: string, ext: string, q: string)
    requires IsCloudExt(ext)
    requires '?' !in m && '&' !in m && '.' !in q && '?' !in q && '&' !in q
    requires !Contains(m, ".mp4") && !Contains(m, ".mkv") && !Contains(m, ".zip")
    ensures NormalizeCloud(m + ("." + ext + "?" + q)) == m + ("?ext=" + ext + q)
  {
    var e := ext + q;
    ExtRewritesBeforeMark(m, ext, q);
    Regroup(m, "?ext=", ext, q);
    assert '?' !in e && '&' !in e;
    QueryFixupsOnExt(m, e);
  }

  lemma Regroup(m: string, a: string, b: string, c: string)
    ensures m + (a + b + c) == m + a + (b + c)
  {
  }

  /** The replacements hold no query characters. */
  lemma ReplacementNoQuery(a: nat)
    requires a < |UrlMappings|
    ensures '?' !in UrlMappings[a].replace && '&' !in UrlMappings[a].replace
  {
    var d := ('1' as int + a) as char;
    ReplacementShape(a);
    CloudServerParts();
    NoMarksInPieces();
    assert UrlMappings[a].replace == "https://cloud." + CloudHost + "/server" + [d] + "/";
  }

  lemma NoMarksInPieces()
    ensures '?' !in "https://cloud." && '&' !in "https://cloud."
    ensures '?' !in CloudHost && '&' !in CloudHost
    ensures '?' !in "/server" && '&' !in "/server"
  {
  }

  /** A pattern `.x…` is absent from `h.u.v` when `h`, `u` and `v` have no dots and neither `u` nor `v` starts with `x`. */
  lemma TwoDotsNoMatch(h: string, u: string, v: string, p: string)
    requires |p| >= 2 && p[0] == '.'
    requires '.' !in h && '.' !in u && '.' !in v
    requires u != [] && u[0] != p[1] && v != [] && v[0] != p[1]
    ensures !Contains(h + (['.'] + (u + (['.'] + v))), p)
  {
    FirstCharAbsent(v, p);
    IndexOfNearMiss('.', v, p);
    IndexOfSkip(u, ['.'] + v, p);
    IndexOfNearMiss('.', u + (['.'] + v), p);
    IndexOfSkip(h, ['.'] + (u + (['.'] + v)), p);
  }

  lemma CloudDots(d: char, name: string)
    requires '0' <= d <= '9' && '.' !in name
    ensures "https://cloud.sonic-cloud.online/server" + [d] + "/" + name
            == "https://cloud" + (['.'] + ("sonic-cloud" + (['.'] + ("online/server" + [d] + "/" + name))))
    ensures '.' !in "online/server" + [d] + "/" + name
  {
  }

  /** A replacement has no `.mp4`, `.mkv` or `.zip`: its dots start `.sonic` and `.online`. */
  lemma ReplacementAloneNoExt(a: nat, e: string)
    requires a < |UrlMappings| && IsCloudExt(e)
    ensures !Contains(UrlMappings[a].replace, "." + e)
  {
    var d := ('1' as int + a) as char;
    ReplacementShape(a);
    CloudDots(d, []);
    assert UrlMappings[a].replace == "https://cloud.sonic-cloud.online/server" + [d] + "/" + [];
    TwoDotsNoMatch("https://cloud", "sonic-cloud", "online/server" + [d] + "/" + [], "." + e);
  }

  /**
   * A replacement followed by a name without `.ext` has no `.ext` either: the replacement
   * ends in `/`, which cannot be part of `.ext`.
   */
  lemma ReplacementNoExt(a: nat, name: string, e: string)
    requires a < |UrlMappings| && IsCloudExt(e) && !Contains(name, "." + e)
    ensures !Contains(UrlMappings[a].replace + name, "." + e)
  {
    var rep := UrlMappings[a].replace;
    ReplacementAloneNoExt(a, e);
    ReplacementShape(a);
    assert rep[|rep| - 1] == '/';
    assert '/' !in "." + e;
    NotContainsAfter(rep, name, "." + e);
  }

  /** The three extension tokens stay absent after a replacement when the name has none of them. */
  lemma ReplacementNoExts(a: nat, name: string)
    requires a < |UrlMappings|
    requires !Contains(name, ".mp4") && !Contains(name, ".mkv") && !Contains(name, ".zip")
    ensures var m := UrlMappings[a].replace + name;
      !Contains(m, "." + "mp4") && !Contains(m, "." + "mkv") && !Contains(m, "." + "zip")
  {
    assert "." + "mp4" == ".mp4" && "." + "mkv" == ".mkv" && "." + "zip" == ".zip";
    ReplacementNoExt(a, name, "mp4");
    ReplacementNoExt(a, name, "mkv");
    ReplacementNoExt(a, name, "zip");
  }

  /**
   * The end-to-end effect on a legacy file URL: `https://google.com/server11/1:/name.mp4`
   * becomes `https://cloud.sonic-cloud.online/server1/name?ext=mp4`.
   */
  lemma TransformListedFile(raw: string, a: nat, b: nat, name: string, ext: string)
    requires a < |UrlMappings| && b < |UrlMappings[a].search|
    requires IsCloudExt(ext) && '?' !in name && '&' !in name
    requires !Contains(name, ".mp4") && !Contains(name, ".mkv") && !Contains(name, ".zip")
    requires raw == UrlMappings[a].search[b] + name + "." + ext
    ensures Transform(raw) == UrlMappings[a].replace + name + "?ext=" + ext
  {
    var p, rep := UrlMappings[a].search[b], UrlMappings[a].replace;
    assert raw[..|p|] == p && raw[|p|..] == name + "." + ext;
    TransformListedPrefix(raw, a, b);
    ReplacementNoQuery(a);
    ReplacementNoExts(a, name);
    NormalizeMappedFile(rep, name, ext);
  }

  /**
   * The same legacy file link with a query already on it: `…/name.mp4?x=1` becomes
   * `…/name?ext=mp4x=1`, the old parameter fused onto the extension.
   */
  lemma TransformListedFileQuery(raw: string, a: nat, b: nat, name: string, ext: string, q: string)
    requires a < |UrlMappings| && b < |UrlMappings[a].search|
    requires IsCloudExt(ext) && '?' !in name && '&' !in name
    requires !Contains(name, ".mp4") && !Contains(name, ".mkv") && !Contains(name, ".zip")
    requires '.' !in q && '?' !in q && '&' !in q
    requires raw == UrlMappings[a].search[b] + (name + ("." + ext + "?" + q))
    ensures Transform(raw) == UrlMappings[a].replace + name + ("?ext=" + ext + q)
  {
    var p, rep := UrlMappings[a].search[b], UrlMappings[a].replace;
    assert raw[..|p|] == p && raw[|p|..] == name + ("." + ext + "?" + q);
    TransformListedPrefix(raw, a, b);
    ReplacementNoQuery(a);
    ReplacementNoExts(a, name);
    NormalizeMappedFileQuery(rep, name, ext, q);
  }

  lemma NormalizeMappedFileQuery(rep: string, name: string, ext: string, q: string)
    requires IsCloudExt(ext) && '?' !in name && '&' !in name && '?' !in rep && '&' !in rep
    requires '.' !in q && '?' !in q && '&' !in q
    requires !Contains(rep + name, "." + "mp4") && !Contains(rep + name, "." + "mkv") && !Contains(rep + name, "." + "zip")
    ensures NormalizeCloud(rep + (name + ("." + ext + "?" + q))) == rep + name + ("?ext=" + ext + q)
  {
    var m := rep + name;
    assert "." + "mp4" == ".mp4" && "." + "mkv" == ".mkv" && "." + "zip" == ".zip";
    assert rep + (name + ("." + ext + "?" + q)) == m + ("." + ext + "?" + q);
    NormalizeCloudFileQuery(m, ext, q);
  }

  lemma NormalizeMappedFile(rep: string, name: string, ext: string)
    requires IsCloudExt(ext) && '?' !in name && '&' !in name && '?' !in rep && '&' !in rep
    requires !Contains(rep + name, "." + "mp4") && !Contains(rep + name, "." + "mkv") && !Contains(rep + name, "." + "zip")
    ensures NormalizeCloud(rep + (name + "." + ext)) == rep + name + "?ext=" + ext
  {
    var m := rep + name;
    assert "." + "mp4" == ".mp4" && "." + "mkv" == ".mkv" && "." + "zip" == ".zip";
    assert rep + (name + "." + ext) == m + "." + ext;
    NormalizeCloudFile(m, ext);
  }

  /** No rule re-applies: mapping an already mapped URL changes nothing. */
  lemma MapPrefixIdempotent(raw: string)
    ensures MapPrefix(MapPrefix(raw, UrlMappings), UrlMappings) == MapPrefix(raw, UrlMappings)
  {
    TableShape();
    if NoRuleMatches(raw, UrlMappings) {
      MapPrefixUnmatched(raw, UrlMappings);
    } else {
      MapPrefixMatchedIsCloud(raw, UrlMappings);
      var m := MapPrefix(raw, UrlMappings);
      CloudNotRemapped(m, UrlMappings);
      MapPrefixUnmatched(m, UrlMappings);
    }
  }

  /** A URL that no rule matches and that does not mention the streaming host comes back unchanged. */
  lemma TransformUnmatchedUnchanged(raw: string)
    requires raw != "" && !StartsWith(raw, "#")
    requires NoRuleMatches(raw, UrlMappings) && !Contains(raw, CloudHost)
    ensures Transform(raw) == raw
  {
    MapPrefixUnmatched(raw, UrlMappings);
  }

  /** After normalization on the streaming host, an `&` never appears without a `?`. */
  lemma TransformAmpHasQuery(raw: string)
    requires raw != "" && !StartsWith(raw, "#")
    requires Contains(MapPrefix(raw, UrlMappings), CloudHost)
    ensures Contains(Transform(raw), "&") ==> Contains(Transform(raw), "?")
  {
    var m := MapPrefix(raw, UrlMappings);
    var a := ReplaceExt(ReplaceExt(m, "mp4"), "mkv");
    var b := ReplaceExt(a, "zip");
    var c := ReplaceFirst(ReplaceFirst(ReplaceFirst(b, "??", "?"), "?ext=", "&ext="), "?bot=", "&bot=");
    if !Contains(c, "?") && Contains(c, "&") {
      var r := ReplaceFirst(c, "&", "?");
      ContainsAt(r, "?", IndexOf(c, "&"));
    }
  }

  lemma ExampleSource()
    ensures "https://google.com/server11/1:/abc.mp4" == UrlMappings[0].search[0] + "abc" + "." + "mp4"
  {
    assert UrlMappings[0].search[0] == "https://google.com/server11/1:/";
  }

  lemma ExampleTarget()
    ensures UrlMappings[0].replace + "abc" + "?ext=" + "mp4" == "https://cloud.sonic-cloud.online/server1/abc?ext=mp4"
  {
    var rep := UrlMappings[0].replace;
    assert rep == "https://cloud.sonic-cloud.online/server1/";
    assert rep + "abc" == "https://cloud.sonic-cloud.online/server1/abc";
    assert rep + "abc" + "?ext=" == "https://cloud.sonic-cloud.online/server1/abc?ext=";
  }

  /** A legacy file link that already has a query: the `?` is lost and `x=1` is fused onto `ext=mp4`. */
  lemma TransformQueryExample()
    ensures Transform("https://google.com/server11/1:/a.mp4?x=1") == "https://cloud.sonic-cloud.online/server1/a?ext=mp4x=1"
  {
    assert UrlMappings[0].search[0] == "https://google.com/server11/1:/";
    assert "https://google.com/server11/1:/a.mp4?x=1" == UrlMappings[0].search[0] + ("a" + ("." + "mp4" + "?" + "x=1"));
    var rep := UrlMappings[0].replace;
    assert rep == "https://cloud.sonic-cloud.online/server1/";
    assert rep + "a" + ("?ext=" + "mp4" + "x=1") == "https://cloud.sonic-cloud.online/server1/a?ext=mp4x=1";
    TransformListedFileQuery("https://google.com/server11/1:/a.mp4?x=1", 0, 0, "a", "mp4", "x=1");
  }

  /** The documented example: a legacy `server11` file link lands on `server1` with its extension as a query. */
  lemma TransformExample()
    ensures Transform("https://google.com/server11/1:/abc.mp4") == "https://cloud.sonic-cloud.online/server1/abc?ext=mp4"
  {
    ExampleSource();
    ExampleTarget();
    TransformListedFile("https://google.com/server11/1:/abc.mp4", 0, 0, "abc", "mp4");
  }

  /** A file name with dots of its own, none starting an extension token, is handled the same way. */
  lemma TransformDottedExample()
    ensures Transform("https://google.com/server11/1:/Movie.2021.1080p.mp4")
            == "https://cloud.sonic-cloud.online/server1/Movie.2021.1080p?ext=mp4"
  {
    DottedNameNoExt();
    DottedNameNoMarks();
    DottedSource();
    DottedTarget();
    TransformListedFile("https://google.com/server11/1:/Movie.2021.1080p.mp4", 0, 0, "Movie.2021.1080p", "mp4");
  }

  lemma DottedNameNoMarks()
    ensures '?' !in "Movie.2021.1080p" && '&' !in "Movie.2021.1080p"
  {
    var h, u, v := "Movie", "2021", "1080p";
    assert "Movie.2021.1080p" == h + (['.'] + (u + (['.'] + v)));
    assert '?' !in h && '?' !in u && '?' !in v;
    assert '&' !in h && '&' !in u && '&' !in v;
  }

  lemma DottedSource()
    ensures "https://google.com/server11/1:/Movie.2021.1080p.mp4" == UrlMappings[0].search[0] + "Movie.2021.1080p" + "." + "mp4"
  {
    assert UrlMappings[0].search[0] == "https://google.com/server11/1:/";
  }

  lemma DottedTarget()
    ensures UrlMappings[0].replace + "Movie.2021.1080p" + "?ext=" + "mp4"
            == "https://cloud.sonic-cloud.online/server1/Movie.2021.1080p?ext=mp4"
  {
    var rep := UrlMappings[0].replace;
    assert rep == "https://cloud.sonic-cloud.online/server1/";
    assert rep + "Movie.2021.1080p" == "https://cloud.sonic-cloud.online/server1/Movie.2021.1080p";
  }

  lemma DottedNameNoExt()
    ensures !Contains("Movie.2021.1080p", ".mp4") && !Contains("Movie.2021.1080p", ".mkv")
    ensures !Contains("Movie.2021.1080p", ".zip")
  {
    var h, u, v := "Movie", "2021", "1080p";
    assert "Movie.2021.1080p" == h + (['.'] + (u + (['.'] + v)));
    TwoDotsNoMatch(h, u, v, ".mp4");
    TwoDotsNoMatch(h, u, v, ".mkv");
    TwoDotsNoMatch(h, u, v, ".zip");
  }
}
