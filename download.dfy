/**
 * `GET /download?url=…`: a countdown page is resolved into download options. Anchors are
 * classified by their link, in a fixed priority order; script blocks that mention `href` are
 * scanned for URLs on the streaming host; every option goes through `add`, which drops empty
 * and `#` links and sends direct links through the URL transformation; the options are then
 * deduplicated by download URL.
 */
module Download {
  import opened Wrappers
  import opened Strings
  import opened Patterns
  import opened Page
  import opened UrlTransform
  import KeyedDedup
  import Collect

  datatype LinkType = Direct | Mega | Google | Telegram

  datatype ResolvedLink = ResolvedLink(kind: LinkType, labelText: string, downloadUrl: string)

  function DownloadUrl(l: ResolvedLink): string
  {
    l.downloadUrl
  }

  datatype DownloadResponse = DownloadResponse(success: bool, count: nat, options: seq<ResolvedLink>)

  /** `add(h, label, type)`: the record it pushes, if any. */
  function Add(h: string, labelText: string, kind: LinkType): Option<ResolvedLink>
  {
    if h == "" || StartsWith(h, "#") then None
    else Some(ResolvedLink(kind, labelText, if kind == Direct then Transform(h) else h))
  }

  /** The `if … else if …` chain over one anchor: the label and type it is added under, if any. */
  function Classify(h: string, id: Option<string>): Option<(string, LinkType)>
  {
    if Contains(h, CloudHost) || Contains(h, "google.com/server") then Some(("Sonic Cloud", Direct))
    else if Contains(h, "mega.nz") then Some(("Mega.nz", Mega))
    else if Contains(h, "drive.google.com") then Some(("Google Drive", Google))
    else if Contains(h, "t.me/") then Some(("Telegram Fast", Telegram))
    else if id == Some("link") || id == Some("generate") then
      Some(("Direct Stream", if Contains(h, "t.me") then Telegram else if Contains(h, "drive.google") then Google else Direct))
    else None
  }

  /** What one anchor pushes: its `href` (or `''`), classified and passed to `add`. */
  function AnchorLink(a: Anchor): Option<ResolvedLink>
  {
    var h := AttrOr(a.href, "");
    match Classify(h, a.id)
    case Some(c) => Add(h, c.0, c.1)
    case None => None
  }

  /** What one URL found in a script pushes: the URL without backslashes, if it names the streaming host. */
  function ScriptUrlLink(u: string): Option<ResolvedLink>
  {
    var clean := StripBackslashes(u);
    if Contains(clean, CloudHost) then Add(clean, "Extracted Direct", Direct) else None
  }

  /** The records one script block pushes; only a block whose HTML mentions `href` is scanned. */
  function ScriptLinks(content: Option<string>): seq<ResolvedLink>
  {
    if Truthy(content) && Contains(content.value, "href") then Collect.FilterMap(UrlMatches(content.value), ScriptUrlLink)
    else []
  }

  function AllScriptLinks(scripts: seq<Option<string>>): seq<ResolvedLink>
    decreases |scripts|
  {
    if scripts == [] then [] else AllScriptLinks(scripts[..|scripts| - 1]) + ScriptLinks(scripts[|scripts| - 1])
  }

  /** The `resolved` array: anchors in page order, then script blocks in page order. */
  function RawLinks(page: DownloadPage): seq<ResolvedLink>
  {
    Collect.FilterMap(page.anchors, AnchorLink) + AllScriptLinks(page.scripts)
  }

  /** The response for a fetched countdown page. */
  function ResolveOf(page: DownloadPage): DownloadResponse
  {
    var unique := KeyedDedup.Dedup(RawLinks(page), DownloadUrl);
    DownloadResponse(|unique| > 0, |unique|, unique)
  }

  // ------------------------------------------------------------ properties

  /** `add` drops exactly the empty links and the `#` links; only direct links are rewritten. */
  lemma AddSpec(h: string, labelText: string, kind: LinkType)
    ensures Add(h, labelText, kind).None? <==> h == "" || h[0] == '#'
    ensures Add(h, labelText, kind).Some? ==>
      var l := Add(h, labelText, kind).value;
      l.kind == kind && l.labelText == labelText && (kind != Direct ==> l.downloadUrl == h)
      && (kind == Direct ==> l.downloadUrl == Transform(h))
  {
    if h != [] {
      assert StartsWith(h, "#") <==> h[..1] == "#";
      assert h[..1] == "#" <==> h[0] == '#';
    }
  }

  /**
   * The classification chain: the type an anchor is added under agrees with its link, and an
   * anchor is skipped exactly when its link names no known host and its id is neither `link`
   * nor `generate`.
   */
  lemma ClassifyAgreesWithHost(h: string, id: Option<string>)
    ensures Classify(h, id).Some? && Classify(h, id).value.1 == Mega ==> Contains(h, "mega.nz")
    ensures Classify(h, id).Some? && Classify(h, id).value.1 == Google ==> Contains(h, "drive.google")
    ensures Classify(h, id).Some? && Classify(h, id).value.1 == Telegram ==> Contains(h, "t.me")
    ensures Classify(h, id).None? <==>
      !Contains(h, CloudHost) && !Contains(h, "google.com/server") && !Contains(h, "mega.nz")
      && !Contains(h, "drive.google.com") && !Contains(h, "t.me/")
      && id != Some("link") && id != Some("generate")
    ensures Classify(h, id).Some? && Classify(h, id).value.0 == "Direct Stream" <==>
      !Contains(h, CloudHost) && !Contains(h, "google.com/server") && !Contains(h, "mega.nz")
      && !Contains(h, "drive.google.com") && !Contains(h, "t.me/")
      && (id == Some("link") || id == Some("generate"))
  {
    if Contains(h, "drive.google.com") {
      assert "drive.google.com" == "drive.google" + ".com";
      ContainsPrefix(h, "drive.google", ".com");
    }
    if Contains(h, "t.me/") {
      assert "t.me/" == "t.me" + "/";
      ContainsPrefix(h, "t.me", "/");
    }
  }

  /** The earliest test of the chain that holds decides the label: a link naming several hosts takes the first. */
  lemma ClassifyPriority(h: string, id: Option<string>)
    ensures var cloud := Contains(h, CloudHost) || Contains(h, "google.com/server");
      && (cloud ==> Classify(h, id) == Some(("Sonic Cloud", Direct)))
      && (!cloud && Contains(h, "mega.nz") ==> Classify(h, id) == Some(("Mega.nz", Mega)))
      && (!cloud && !Contains(h, "mega.nz") && Contains(h, "drive.google.com") ==> Classify(h, id) == Some(("Google Drive", Google)))
      && (!cloud && !Contains(h, "mega.nz") && !Contains(h, "drive.google.com") && Contains(h, "t.me/")
          ==> Classify(h, id) == Some(("Telegram Fast", Telegram)))
    ensures Classify(h, id).Some? && Classify(h, id).value.1 == Direct && Classify(h, id).value.0 != "Sonic Cloud" ==>
      !Contains(h, "t.me") && !Contains(h, "drive.google")
  {
  }

  /** What every resolved record satisfies: its type agrees with its URL, and only direct links are rewritten. */
  ghost predicate AgreesWithKind(l: ResolvedLink)
  {
    && (l.kind == Mega ==> Contains(l.downloadUrl, "mega.nz"))
    && (l.kind == Google ==> Contains(l.downloadUrl, "drive.google"))
    && (l.kind == Telegram ==> Contains(l.downloadUrl, "t.me"))
    && (l.kind != Direct ==> l.downloadUrl != "" && l.downloadUrl[0] != '#')
    && (l.kind == Direct ==> exists h :: h != "" && h[0] != '#' && l.downloadUrl == Transform(h))
  }

  /** What one anchor pushes, if anything, agrees with its type; a link on the streaming host is a direct `Sonic Cloud` option. */
  lemma AnchorLinkAgrees(a: Anchor)
    ensures AnchorLink(a).Some? ==> AgreesWithKind(AnchorLink(a).value)
    ensures var h := AttrOr(a.href, "");
      Contains(h, CloudHost) && h[0] != '#' ==> AnchorLink(a) == Some(ResolvedLink(Direct, "Sonic Cloud", Transform(h)))
  {
    var h := AttrOr(a.href, "");
    ClassifyAgreesWithHost(h, a.id);
    match Classify(h, a.id)
    case None =>
    case Some(c) =>
      AddSpec(h, c.0, c.1);
  }

  /** Links with a leading letter do not start with `#`, and backslash removal keeps that letter. */
  lemma StripKeepsHead(u: string)
    requires IsUrlMatch(u)
    ensures StripBackslashes(u) != [] && StripBackslashes(u)[0] == 'h'
  {
    assert u[0] == u[..7][0] == 'h';
  }

  /** `l` is the record pushed for the script URL match `u`. */
  ghost predicate ExtractedFrom(l: ResolvedLink, u: string)
  {
    Contains(StripBackslashes(u), CloudHost) && l == ResolvedLink(Direct, "Extracted Direct", Transform(StripBackslashes(u)))
  }

  lemma ScriptUrlLinkSpec(u: string, l: ResolvedLink)
    requires IsUrlMatch(u)
    ensures ScriptUrlLink(u) == Some(l) <==> ExtractedFrom(l, u)
  {
    StripKeepsHead(u);
    AddSpec(StripBackslashes(u), "Extracted Direct", Direct);
  }

  /**
   * A script block yields exactly the direct `Extracted Direct` records of the URLs matched in it
   * whose backslash-free form names the streaming host, and only when it mentions `href`.
   */
  lemma ScriptLinksMembers(content: Option<string>)
    ensures forall l :: l in ScriptLinks(content) <==>
      Truthy(content) && Contains(content.value, "href")
      && exists u :: u in UrlMatches(content.value) && ExtractedFrom(l, u)
    ensures Truthy(content) ==> |ScriptLinks(content)| <= |UrlMatches(content.value)|
  {
    if Truthy(content) && Contains(content.value, "href") {
      var found := UrlMatches(content.value);
      assert ScriptLinks(content) == Collect.FilterMap(found, ScriptUrlLink);
      ScriptMatchesMembers(found);
      Collect.FilterMapLength(found, ScriptUrlLink);
    }
  }

  lemma ScriptMatchesMembers(found: seq<string>)
    requires forall u :: u in found ==> IsUrlMatch(u)
    ensures forall l :: l in Collect.FilterMap(found, ScriptUrlLink) <==> exists u :: u in found && ExtractedFrom(l, u)
  {
    Collect.FilterMapMembers(found, ScriptUrlLink);
    forall l ensures l in Collect.FilterMap(found, ScriptUrlLink) <==> exists u :: u in found && ExtractedFrom(l, u)
    {
      if l in Collect.FilterMap(found, ScriptUrlLink) {
        var i :| 0 <= i < |found| && ScriptUrlLink(found[i]) == Some(l);
        ScriptUrlLinkSpec(found[i], l);
        assert found[i] in found;
      }
      if exists u :: u in found && ExtractedFrom(l, u) {
        var u :| u in found && ExtractedFrom(l, u);
        var i :| 0 <= i < |found| && found[i] == u;
        ScriptUrlLinkSpec(found[i], l);
      }
    }
  }

  lemma {:induction false} AllScriptLinksAgree(scripts: seq<Option<string>>)
    ensures forall l :: l in AllScriptLinks(scripts) ==> l.kind == Direct && l.labelText == "Extracted Direct" && AgreesWithKind(l)
    decreases |scripts|
  {
    if scripts != [] {
      var p, c := scripts[..|scripts| - 1], scripts[|scripts| - 1];
      AllScriptLinksAgree(p);
      ScriptLinksMembers(c);
      forall l | l in ScriptLinks(c)
        ensures l.kind == Direct && l.labelText == "Extracted Direct" && AgreesWithKind(l)
      {
        var u :| u in UrlMatches(c.value) && ExtractedFrom(l, u);
        StripKeepsHead(u);
      }
    }
  }

  // ------------------------------------------------- the pattern as emitted

  /**
   * The script-scan pattern as the emitted server text has it: the template literal turns
   * `[^\s'"]` into `[^s'"]`, so after the scheme a match runs up to the first `s` or quote.
   */
  predicate IsUrlMatchAsEmitted(m: string, scheme: string)
  {
    (scheme == "https://" || scheme == "http://") && StartsWith(m, scheme)
    && forall k :: |scheme| <= k < |m| ==> m[k] != 's' && m[k] != '\'' && m[k] != '"'
  }

  /** A match of the emitted pattern never names the streaming host, so it is never added. */
  lemma EmittedScanFindsNothing(m: string, scheme: string)
    requires IsUrlMatchAsEmitted(m, scheme)
    ensures ScriptUrlLink(m) == None
  {
    var r := m[|scheme|..];
    assert m == scheme + r;
    EmittedTailHasNoS(m, scheme);
    StripAppend(scheme, r);
    StripWithout(scheme);
    StripKeepsOut(r, 's');
    NoHostAfterScheme(scheme, StripBackslashes(r));
  }

  lemma EmittedTailHasNoS(m: string, scheme: string)
    requires IsUrlMatchAsEmitted(m, scheme)
    ensures 's' !in m[|scheme|..]
  {
    var r := m[|scheme|..];
    forall k | 0 <= k < |r| ensures r[k] != 's' {
      assert r[k] == m[|scheme| + k];
    }
  }

  lemma NoHostAfterScheme(scheme: string, r: string)
    requires scheme == "https://" || scheme == "http://"
    requires 's' !in r
    ensures !Contains(scheme + r, CloudHost)
  {
    var s := scheme + r;
    SchemeThenNoSo(scheme, r);
    HostHead();
    OccursHead(s, CloudHost, IndexOf(s, CloudHost));
  }

  lemma OccursHead(s: string, p: string, i: int)
    ensures OccursAt(s, p, i) && |p| >= 2 ==> s[i] == p[0] && s[i + 1] == p[1]
  {
    if OccursAt(s, p, i) && |p| >= 2 {
      assert s[i..i + |p|][0] == s[i] && s[i..i + |p|][1] == s[i + 1];
    }
  }

  /** After a scheme, a text without `s` never has an `s` followed by an `o`. */
  lemma SchemeThenNoSo(scheme: string, r: string)
    requires scheme == "https://" || scheme == "http://"
    requires 's' !in r
    ensures forall i :: 0 <= i < |scheme + r| - 1 ==> (scheme + r)[i] != 's' || (scheme + r)[i + 1] != 'o'
  {
    var s := scheme + r;
    forall i | 0 <= i < |s| - 1 ensures s[i] != 's' || s[i + 1] != 'o' {
      if i < |scheme| {
        assert s[i] == scheme[i];
        if scheme[i] == 's' {
          SchemeHasNoSo(scheme, i);
          assert s[i + 1] == scheme[i + 1];
        }
      } else {
        assert s[i] == r[i - |scheme|];
      }
    }
  }

  lemma HostHead()
    ensures |CloudHost| == 18 && CloudHost[0] == 's' && CloudHost[1] == 'o'
  {
  }

  /** The only `s` of a scheme is the one of `https`, and a `:` follows it. */
  lemma SchemeHasNoSo(scheme: string, i: nat)
    requires scheme == "https://" || scheme == "http://"
    requires i < |scheme| && scheme[i] == 's'
    ensures i + 1 < |scheme| && scheme[i + 1] != 'o'
  {
  }

  /** With the pattern as intended, a URL on the streaming host found in a script is added as a direct link. */
  lemma IntendedScanFindsHost(rest: string)
    requires '\\' !in rest && '\'' !in rest && '"' !in rest && forall k :: 0 <= k < |rest| ==> !IsJsSpace(rest[k])
    ensures IsUrlMatch("https://" + CloudHost + rest)
    ensures ScriptUrlLink("https://" + CloudHost + rest)
            == Some(ResolvedLink(Direct, "Extracted Direct", Transform("https://" + CloudHost + rest)))
  {
    var u := "https://" + CloudHost + rest;
    HostIsUrlText();
    forall k | 0 <= k < |u| ensures IsUrlChar(u[k]) {
      if k >= 8 + |CloudHost| {
        assert u[k] == rest[k - 8 - |CloudHost|];
      } else {
        assert u[k] == ("https://" + CloudHost)[k];
      }
    }
    assert u[..8] == "https://";
    assert '\\' !in "https://" + CloudHost;
    StripWithout(u);
    OccursAtMiddle("https://", CloudHost, rest);
    AddSpec(u, "Extracted Direct", Direct);
  }

  /**
   * With the pattern as intended, a script block `href='u'` whose URL names the streaming
   * host yields that URL, transformed, as its one direct option.
   */
  lemma IntendedScriptFindsLink(u: string)
    requires IsUrlMatch(u) && '\\' !in u && Contains(u, CloudHost)
    ensures ScriptLinks(Some("href='" + u + "'")) == [ResolvedLink(Direct, "Extracted Direct", Transform(u))]
  {
    var c := "href='" + u + "'";
    assert c[..4] == "href";
    ContainsAt(c, "href", 0);
    UrlMatchesQuoted(u);
    HostUrlLink(u);
    PushedOne(u, ScriptUrlLink);
  }

  /** A backslash-free URL naming the streaming host is pushed as a transformed direct option. */
  lemma HostUrlLink(u: string)
    requires IsUrlMatch(u) && '\\' !in u && Contains(u, CloudHost)
    ensures ScriptUrlLink(u) == Some(ResolvedLink(Direct, "Extracted Direct", Transform(u)))
  {
    StripWithout(u);
    UrlMatchStartsWithH(u);
    AddSpec(u, "Extracted Direct", Direct);
    var l := Add(u, "Extracted Direct", Direct).value;
    assert l == ResolvedLink(Direct, "Extracted Direct", Transform(u));
  }

  lemma UrlMatchStartsWithH(u: string)
    requires IsUrlMatch(u)
    ensures u != "" && u[0] == 'h'
  {
    if StartsWith(u, "https://") {
      assert u[..8][0] == u[0];
    } else {
      assert u[..7][0] == u[0];
    }
  }

  lemma PushedOne<A, B>(x: A, f: A -> Option<B>)
    ensures Collect.FilterMap([x], f) == Collect.Pushed(x, f)
  {
    assert [x][..0] == [];
  }

  /** `https://cloud.sonic-cloud.online/server1/a.mp4`. */
  const ExampleUrl: string := "https://" + ("cloud." + CloudHost + "/server1/a.mp4")

  /** The script block of the line-217 finding, scanned with the intended pattern. */
  lemma IntendedScriptExample()
    ensures ScriptLinks(Some("href='" + ExampleUrl + "'"))
         == [ResolvedLink(Direct, "Extracted Direct", Transform(ExampleUrl))]
  {
    ExampleUrlFacts();
    IntendedScriptFindsLink(ExampleUrl);
  }

  lemma ExampleUrlFacts()
    ensures IsUrlMatch(ExampleUrl) && '\\' !in ExampleUrl && Contains(ExampleUrl, CloudHost)
  {
    ExampleIsUrl("/server1/a.mp4");
    ExampleNamesHost("/server1/a.mp4");
    assert '\\' !in "https://" && '\\' !in "cloud." && '\\' !in CloudHost && '\\' !in "/server1/a.mp4";
  }

  lemma ExampleIsUrl(tail: string)
    requires tail == "/server1/a.mp4"
    ensures IsUrlMatch(ExampleUrl)
  {
    assert forall k :: 0 <= k < |tail| ==> IsUrlChar(tail[k]);
    HostIsUrlText();
    UrlOfParts("cloud.", CloudHost, tail);
  }

  lemma ExampleNamesHost(tail: string)
    requires tail == "/server1/a.mp4"
    ensures Contains(ExampleUrl, CloudHost)
  {
    OccursAtMiddle("https://" + "cloud.", CloudHost, tail);
    Regroup4("https://", "cloud.", CloudHost, tail);
    ContainsAt(ExampleUrl, CloudHost, 14);
  }

  lemma Regroup4(w: string, x: string, y: string, z: string)
    ensures w + (x + y + z) == (w + x) + y + z
  {
  }

  /** `https://` followed by URL text is a URL match. */
  lemma UrlOfParts(a: string, h: string, t: string)
    requires a != [] && forall k :: 0 <= k < |a + h + t| ==> IsUrlChar((a + h + t)[k])
    ensures IsUrlMatch("https://" + (a + h + t))
  {
    var u := "https://" + (a + h + t);
    assert u[..8] == "https://";
    forall k | 0 <= k < |u| ensures IsUrlChar(u[k]) {
      if k >= 8 {
        assert u[k] == (a + h + t)[k - 8];
      }
    }
  }

  lemma HostIsUrlText()
    ensures forall k :: 0 <= k < |"https://" + CloudHost| ==> IsUrlChar(("https://" + CloudHost)[k])
  {
  }

  /** Every record in the `resolved` array agrees with its type. */
  lemma RawLinksAgree(page: DownloadPage)
    ensures forall l :: l in RawLinks(page) ==> AgreesWithKind(l)
  {
    var fromAnchors := Collect.FilterMap(page.anchors, AnchorLink);
    Collect.FilterMapMembers(page.anchors, AnchorLink);
    forall l | l in fromAnchors ensures AgreesWithKind(l) {
      var i :| 0 <= i < |page.anchors| && AnchorLink(page.anchors[i]) == Some(l);
      AnchorLinkAgrees(page.anchors[i]);
    }
    AllScriptLinksAgree(page.scripts);
  }

  /**
   * The options of a response against the `resolved` array: download URLs distinct, the same URLs
   * present, in order of first appearance, for each URL the last record that had it; `success`
   * exactly when there is at least one, and `count` their number.
   */
  ghost predicate OptionsOf(resp: DownloadResponse, raw: seq<ResolvedLink>)
  {
    var opts := resp.options;
    && KeyedDedup.DistinctKeys(opts, DownloadUrl)
    && (forall u :: KeyedDedup.HasKey(opts, DownloadUrl, u) <==> KeyedDedup.HasKey(raw, DownloadUrl, u))
    && (forall i, j :: 0 <= i < j < |opts| ==>
          KeyedDedup.KeyIndex(raw, DownloadUrl, opts[i].downloadUrl) < KeyedDedup.KeyIndex(raw, DownloadUrl, opts[j].downloadUrl))
    && (forall i :: 0 <= i < |opts| ==>
          KeyedDedup.LastKeyIndex(raw, DownloadUrl, opts[i].downloadUrl) >= 0
          && opts[i] == raw[KeyedDedup.LastKeyIndex(raw, DownloadUrl, opts[i].downloadUrl)])
    && |opts| <= |raw|
    && resp.count == |opts|
    && (resp.success <==> raw != [])
  }

  /** The response for a page, against the records its two loops collected. */
  lemma ResolveOptions(page: DownloadPage)
    ensures OptionsOf(ResolveOf(page), RawLinks(page))
    ensures forall l :: l in ResolveOf(page).options ==> AgreesWithKind(l)
  {
    var raw := RawLinks(page);
    KeyedDedup.DedupSpec(raw, DownloadUrl);
    RawLinksAgree(page);
    var opts := ResolveOf(page).options;
    forall l | l in opts ensures AgreesWithKind(l) {
      var i :| 0 <= i < |opts| && opts[i] == l;
      assert raw[KeyedDedup.LastKeyIndex(raw, DownloadUrl, opts[i].downloadUrl)] in raw;
    }
  }

  // ------------------------------------------------------------ the handler

  /** `add`, appending to `resolved`; direct links go through `transformUrl`. */
  method AddTo(resolved: seq<ResolvedLink>, h: string, labelText: string, kind: LinkType) returns (r: seq<ResolvedLink>)
    ensures r == resolved + match Add(h, labelText, kind) case Some(l) => [l] case None => []
  {
    if h == "" || StartsWith(h, "#") {
      return resolved;
    }
    var url := h;
    if kind == Direct {
      url := TransformUrl(h);
    }
    r := resolved + [ResolvedLink(kind, labelText, url)];
  }

  lemma AllScriptLinksSnoc(scripts: seq<Option<string>>, i: nat)
    requires i < |scripts|
    ensures AllScriptLinks(scripts[..i + 1]) == AllScriptLinks(scripts[..i]) + ScriptLinks(scripts[i])
  {
    assert scripts[..i + 1][..i] == scripts[..i];
  }

  /** The body of the anchor loop: the classification chain, then `add`. */
  method AddAnchor(resolved: seq<ResolvedLink>, a: Anchor) returns (r: seq<ResolvedLink>)
    ensures r == resolved + Collect.Pushed(a, AnchorLink)
  {
    var h := AttrOr(a.href, "");
    var id := a.id;
    r := resolved;
    if Contains(h, CloudHost) || Contains(h, "google.com/server") {
      r := AddTo(resolved, h, "Sonic Cloud", Direct);
    } else if Contains(h, "mega.nz") {
      r := AddTo(resolved, h, "Mega.nz", Mega);
    } else if Contains(h, "drive.google.com") {
      r := AddTo(resolved, h, "Google Drive", Google);
    } else if Contains(h, "t.me/") {
      r := AddTo(resolved, h, "Telegram Fast", Telegram);
    } else if id == Some("link") || id == Some("generate") {
      var dType := if Contains(h, "t.me") then Telegram else if Contains(h, "drive.google") then Google else Direct;
      r := AddTo(resolved, h, "Direct Stream", dType);
    }
  }

  /** The body of the `forEach` over the matches of one script block. */
  method AddMatch(resolved: seq<ResolvedLink>, u: string) returns (r: seq<ResolvedLink>)
    ensures r == resolved + Collect.Pushed(u, ScriptUrlLink)
  {
    var clean := StripBackslashes(u);
    r := resolved;
    if Contains(clean, CloudHost) {
      r := AddTo(resolved, clean, "Extracted Direct", Direct);
    }
  }

  /** The body of the script loop: a block mentioning `href` has its URL matches scanned. */
  method AddScript(resolved: seq<ResolvedLink>, content: Option<string>) returns (r: seq<ResolvedLink>)
    ensures r == resolved + ScriptLinks(content)
  {
    r := resolved;
    if Truthy(content) && Contains(content.value, "href") {
      var found := UrlMatches(content.value);
      for j := 0 to |found|
        invariant r == resolved + Collect.FilterMap(found[..j], ScriptUrlLink)
      {
        r := AddMatch(r, found[j]);
        Collect.FilterMapSnoc(found, ScriptUrlLink, j);
      }
      assert found[..|found|] == found;
    }
  }

  /** The `$('a').each` loop. */
  method CollectAnchorLinks(anchors: seq<Anchor>) returns (resolved: seq<ResolvedLink>)
    ensures resolved == Collect.FilterMap(anchors, AnchorLink)
  {
    resolved := [];
    for i := 0 to |anchors|
      invariant resolved == Collect.FilterMap(anchors[..i], AnchorLink)
    {
      resolved := AddAnchor(resolved, anchors[i]);
      Collect.FilterMapSnoc(anchors, AnchorLink, i);
    }
    assert anchors[..|anchors|] == anchors;
  }

  /** The `$('script').each` loop, continuing the `resolved` array. */
  method CollectScriptLinks(resolved: seq<ResolvedLink>, scripts: seq<Option<string>>) returns (r: seq<ResolvedLink>)
    ensures r == resolved + AllScriptLinks(scripts)
  {
    r := resolved;
    for i := 0 to |scripts|
      invariant r == resolved + AllScriptLinks(scripts[..i])
    {
      ghost var before := AllScriptLinks(scripts[..i]);
      ghost var step := ScriptLinks(scripts[i]);
      r := AddScript(r, scripts[i]);
      AllScriptLinksSnoc(scripts, i);
      Collect.AppendAssoc(resolved, before, step);
    }
    assert scripts[..|scripts|] == scripts;
  }

  /** The two `.each` loops and the dedup of the handler. */
  method ResolveDownloads(page: DownloadPage) returns (resp: DownloadResponse)
    ensures resp == ResolveOf(page)
  {
    var fromAnchors := CollectAnchorLinks(page.anchors);
    var resolved := CollectScriptLinks(fromAnchors, page.scripts);
    assert resolved == RawLinks(page);
    var unique := KeyedDedup.Dedup(resolved, DownloadUrl);
    resp := DownloadResponse(|unique| > 0, |unique|, unique);
  }

  /** The handler: a missing or empty `url` is answered with the 400 message. */
  method HandleDownload(url: Option<string>, page: DownloadPage) returns (r: Result<DownloadResponse>)
    ensures r.Err? <==> !Truthy(url)
    ensures r.Err? ==> r.message == "Missing 'url' parameter"
    ensures r.Ok? ==> r.value == ResolveOf(page)
  {
    if !Truthy(url) {
      return Err("Missing 'url' parameter");
    }
    var resp := ResolveDownloads(page);
    r := Ok(resp);
  }
}
