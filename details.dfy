/**
 * `GET /details?url=…`: title, poster, description and rating of a page, a metadata
 * dictionary read from `key: value` list items, and the download candidates among the
 * page's anchors, deduplicated by countdown URL.
 */
module Details {
  import opened Wrappers
  import opened Strings
  import opened Patterns
  import opened Page
  import KeyedDedup
  import Collect

  // ------------------------------------------------------------- metadata

  /** End of the field that starts at `from`: the index of the next `:`, or `|t|`. */
  function FieldEnd(t: string, from: nat): (e: nat)
    requires from <= |t|
    ensures from <= e <= |t|
    ensures e < |t| ==> t[e] == ':'
    ensures forall k :: from <= k < e ==> t[k] != ':'
    decreases |t| - from
  {
    if from == |t| || t[from] == ':' then from else FieldEnd(t, from + 1)
  }

  /**
   * `const [k, v] = t.split(':')` for a text holding a colon: the text before the first colon,
   * and the text between the first colon and the second (or the end).
   */
  function SplitKeyValue(t: string): (kv: (string, string))
    requires ':' in t
    ensures ':' !in kv.0 && ':' !in kv.1
    ensures exists rest :: t == kv.0 + ":" + kv.1 + rest && (rest == "" || rest[0] == ':')
  {
    var i := FieldEnd(t, 0);
    var j := FieldEnd(t, i + 1);
    assert t == t[..i] + ":" + t[i + 1..j] + t[j..];
    (t[..i], t[i + 1..j])
  }

  /** The dictionary entry a list item yields: trimmed lower-case key, trimmed value; none without a colon. */
  function MetaEntry(t: string): Option<(string, string)>
  {
    if Contains(t, ":") then
      ContainsChar(t, ':');
      var kv := SplitKeyValue(t);
      Some((ToLower(Trim(kv.0)), Trim(kv.1)))
    else None
  }

  type Entry = Option<(string, string)>

  /** The entry of every list item, in page order. */
  function Entries(texts: seq<string>): (es: seq<Entry>)
    ensures |es| == |texts| && forall i :: 0 <= i < |texts| ==> es[i] == MetaEntry(texts[i])
  {
    seq(|texts|, i requires 0 <= i < |texts| => MetaEntry(texts[i]))
  }

  /** Writing the entries into an empty object one after another. */
  function WriteEntries(es: seq<Entry>): map<string, string>
    decreases |es|
  {
    if es == [] then map[]
    else
      var m := WriteEntries(es[..|es| - 1]);
      match es[|es| - 1]
      case Some(kv) => m[kv.0 := kv.1]
      case None => m
  }

  /** The `meta` object after the `.each` loop over the list items. */
  function MetaOf(texts: seq<string>): map<string, string>
  {
    WriteEntries(Entries(texts))
  }

  /** Index of the last entry with key `k`, or -1. */
  function LastEntryFor(es: seq<Entry>, k: string): (i: int)
    ensures -1 <= i < |es|
    ensures i >= 0 ==> es[i].Some? && es[i].value.0 == k
    ensures forall j :: i < j < |es| && es[j].Some? ==> es[j].value.0 != k
    decreases |es|
  {
    if es == [] then -1
    else if es[|es| - 1].Some? && es[|es| - 1].value.0 == k then |es| - 1
    else LastEntryFor(es[..|es| - 1], k)
  }

  /** The `.each` loop over the list items, writing one dictionary entry per item that holds a colon. */
  method BuildMeta(texts: seq<string>) returns (meta: map<string, string>)
    ensures meta == MetaOf(texts)
  {
    ghost var es := Entries(texts);
    meta := map[];
    for i := 0 to |texts|
      invariant meta == WriteEntries(es[..i])
    {
      var entry := MetaEntry(texts[i]);
      assert es[i] == entry;
      Collect.PrefixSnoc(es, i);
      if entry.Some? {
        meta := meta[entry.value.0 := entry.value.1];
      }
    }
    assert es[..|texts|] == es;
  }

  // ------------------------------------------------------ download candidates

  datatype DownloadCandidate = DownloadCandidate(quality: string, size: string, countdownUrl: string)

  function CountdownUrl(c: DownloadCandidate): string
  {
    c.countdownUrl
  }

  /** `meta['size'] || 'N/A'`. */
  function MetaSizeOr(meta: map<string, string>): string
  {
    if "size" in meta && meta["size"] != "" then meta["size"] else "N/A"
  }

  /** An anchor is a candidate when its link is an API or links page, or its trimmed text names a quality. */
  predicate IsCandidate(href: string, text: string)
  {
    Contains(href, "/api-") || Contains(href, "/links/") || QualityMatch(text).Some?
  }

  /** The record pushed for one anchor, if any. */
  function CandidateOf(a: Anchor, meta: map<string, string>): Option<DownloadCandidate>
  {
    var h := AttrOr(a.href, "");
    var t := Trim(a.text);
    if IsCandidate(h, t) then
      var size := match SizeMatch(t) case Some(m) => m case None => MetaSizeOr(meta);
      Some(DownloadCandidate(QualityMatch(t).GetOr("720p"), size, h))
    else None
  }

  /** The `download_links` array after the loop over the anchors. */
  function Candidates(anchors: seq<Anchor>, meta: map<string, string>): seq<DownloadCandidate>
  {
    Collect.FilterMap(anchors, (a: Anchor) => CandidateOf(a, meta))
  }

  lemma CandidatesSnoc(anchors: seq<Anchor>, meta: map<string, string>, i: nat)
    requires i < |anchors|
    ensures Candidates(anchors[..i + 1], meta)
            == Candidates(anchors[..i], meta) + (match CandidateOf(anchors[i], meta) case Some(c) => [c] case None => [])
  {
    Collect.FilterMapSnoc(anchors, (a: Anchor) => CandidateOf(a, meta), i);
  }

  /** The `.each` loop over the anchors, pushing one record per candidate. */
  method CollectCandidates(anchors: seq<Anchor>, meta: map<string, string>) returns (links: seq<DownloadCandidate>)
    ensures links == Candidates(anchors, meta)
  {
    links := [];
    for i := 0 to |anchors|
      invariant links == Candidates(anchors[..i], meta)
    {
      var candidate := CandidateOf(anchors[i], meta);
      if candidate.Some? {
        links := links + [candidate.value];
      }
      CandidatesSnoc(anchors, meta, i);
    }
    assert anchors[..|anchors|] == anchors;
  }

  // --------------------------------------------------------------- response

  datatype MovieInfo = MovieInfo(title: string, year: string, rating: string, description: string)

  datatype DetailsData = DetailsData(movieInfo: MovieInfo, posterUrl: Option<string>, downloadLinks: seq<DownloadCandidate>)

  /** The first four-digit run of the title, or `N/A`. */
  function YearOf(title: string): string
  {
    YearMatch(title).GetOr("N/A")
  }

  /** The `data` object the handler sends for a fetched page. */
  function DetailsOf(page: DetailPage): DetailsData
  {
    var title := Trim(page.titleText);
    var meta := MetaOf(page.metaTexts);
    DetailsData(
      MovieInfo(title, YearOf(title), OrDefault(Trim(page.ratingText), "N/A"), Trim(page.descriptionText)),
      OrElse(page.ogImage, page.posterImgSrc),
      KeyedDedup.Dedup(Candidates(page.anchors, meta), CountdownUrl))
  }

  method ExtractDetails(page: DetailPage) returns (d: DetailsData)
    ensures d == DetailsOf(page)
  {
    var title := Trim(page.titleText);
    var poster := OrElse(page.ogImage, page.posterImgSrc);
    var description := Trim(page.descriptionText);
    var imdb := OrDefault(Trim(page.ratingText), "N/A");
    var meta := BuildMeta(page.metaTexts);
    var links := CollectCandidates(page.anchors, meta);
    d := DetailsData(MovieInfo(title, YearOf(title), imdb, description), poster, KeyedDedup.Dedup(links, CountdownUrl));
  }

  /** The handler: a missing or empty `url` is answered with the 400 message. */
  method HandleDetails(url: Option<string>, page: DetailPage) returns (r: Result<DetailsData>)
    ensures r.Err? <==> !Truthy(url)
    ensures r.Err? ==> r.message == "Missing 'url' parameter"
    ensures r.Ok? ==> r.value == DetailsOf(page)
  {
    if !Truthy(url) {
      return Err("Missing 'url' parameter");
    }
    var d := ExtractDetails(page);
    r := Ok(d);
  }

  // ------------------------------------------------------------ properties

  /** Only the segment between the first and second colon becomes the value; anything after is dropped. */
  lemma SplitKeepsSecondSegment(k: string, v: string, rest: string)
    requires ':' !in k && ':' !in v
    ensures SplitKeyValue(k + ":" + v + rest) == (k, v) || (rest != "" && rest[0] != ':')
  {
    var t := k + ":" + v + rest;
    var kv := SplitKeyValue(t);
    var r' :| t == kv.0 + ":" + kv.1 + r' && (r' == "" || r'[0] == ':');
    if rest == "" || rest[0] == ':' {
      SplitUnique(kv.0, kv.1, r', k, v, rest);
    }
  }

  /** A text splits around its first two colons in one way only. */
  lemma SplitUnique(k1: string, v1: string, r1: string, k2: string, v2: string, r2: string)
    requires ':' !in k1 && ':' !in v1 && (r1 == "" || r1[0] == ':')
    requires ':' !in k2 && ':' !in v2 && (r2 == "" || r2[0] == ':')
    requires k1 + ":" + v1 + r1 == k2 + ":" + v2 + r2
    ensures k1 == k2 && v1 == v2
  {
    var t := k1 + ":" + v1 + r1;
    assert t == k2 + ":" + v2 + r2;
    assert t[|k1|] == ':' && t[|k2|] == ':';
    assert forall i :: 0 <= i < |k1| ==> t[i] == k1[i] && k1[i] != ':';
    assert forall i :: 0 <= i < |k2| ==> t[i] == k2[i] && k2[i] != ':';
    assert |k1| == |k2|;
    assert k1 == t[..|k1|] == k2;
    var s := |k1| + 1;
    assert forall i :: 0 <= i < |v1| ==> t[s + i] == v1[i] && v1[i] != ':';
    assert forall i :: 0 <= i < |v2| ==> t[s + i] == v2[i] && v2[i] != ':';
    assert s + |v1| < |t| ==> t[s + |v1|] == ':';
    assert s + |v2| < |t| ==> t[s + |v2|] == ':';
    assert |v1| == |v2|;
    assert v1 == t[s..s + |v1|] == v2;
  }

  /** Lower-casing keeps a string trimmed. */
  lemma LowerKeepsTrimmed(s: string)
    requires s == [] || (!IsJsSpace(s[0]) && !IsJsSpace(s[|s| - 1]))
    ensures ToLower(s) == [] || (!IsJsSpace(ToLower(s)[0]) && !IsJsSpace(ToLower(s)[|s| - 1]))
  {
  }

  /** What the key of an entry looks like: trimmed, lower-case and without a colon. */
  predicate IsMetaKey(key: string)
  {
    && ':' !in key && (forall i :: 0 <= i < |key| ==> !('A' <= key[i] <= 'Z'))
    && (key == [] || (!IsJsSpace(key[0]) && !IsJsSpace(key[|key| - 1])))
  }

  lemma KeyShape(k: string)
    requires ':' !in k
    ensures IsMetaKey(ToLower(Trim(k)))
  {
    var tk := Trim(k);
    TrimKeepsOut(k, ':');
    LowerKeepsTrimmed(tk);
    LowerKeepsOut(tk, ':');
  }

  /** A list item yields an entry exactly when it holds a colon, and every key is trimmed, lower-case and colon-free. */
  lemma MetaEntryShape(t: string)
    ensures MetaEntry(t).Some? <==> ':' in t
    ensures MetaEntry(t).Some? ==> IsMetaKey(MetaEntry(t).value.0)
  {
    ContainsChar(t, ':');
    if ':' in t {
      KeyShape(SplitKeyValue(t).0);
    }
  }

  /** Writing entries in turn leaves, under each key, the value of the last entry with that key. */
  lemma {:induction false} WriteEntriesLastWins(es: seq<Entry>)
    ensures forall k :: k in WriteEntries(es) <==> LastEntryFor(es, k) >= 0
    ensures forall k :: k in WriteEntries(es) ==> WriteEntries(es)[k] == es[LastEntryFor(es, k)].value.1
    decreases |es|
  {
    if es != [] {
      var p := es[..|es| - 1];
      WriteEntriesLastWins(p);
      forall k ensures LastEntryFor(es, k) == if es[|es| - 1].Some? && es[|es| - 1].value.0 == k then |es| - 1 else LastEntryFor(p, k) {
      }
      forall k | LastEntryFor(p, k) >= 0 ensures es[LastEntryFor(p, k)] == p[LastEntryFor(p, k)] {
      }
    }
  }

  /** Later list items overwrite earlier ones with the same key. */
  lemma MetaOfLastWins(texts: seq<string>)
    ensures forall k :: k in MetaOf(texts) <==> LastEntryFor(Entries(texts), k) >= 0
    ensures forall k :: k in MetaOf(texts) ==>
      MetaOf(texts)[k] == MetaEntry(texts[LastEntryFor(Entries(texts), k)]).value.1
  {
    WriteEntriesLastWins(Entries(texts));
  }

  /**
   * An anchor becomes a candidate exactly when its link contains `/api-` or `/links/`, or its
   * trimmed text holds a `\d+p` token; the quality is the leftmost such token, else `720p`.
   */
  lemma CandidateOfSpec(a: Anchor, meta: map<string, string>)
    ensures var h, t := AttrOr(a.href, ""), Trim(a.text);
      CandidateOf(a, meta).Some? <==> Contains(h, "/api-") || Contains(h, "/links/") || exists i, j :: QualityToken(t, i, j)
    ensures var h, t := AttrOr(a.href, ""), Trim(a.text);
      CandidateOf(a, meta).Some? ==>
        && CandidateOf(a, meta).value.countdownUrl == h
        && ((exists i, j :: QualityToken(t, i, j)) ==>
             exists i, j :: QualityToken(t, i, j) && CandidateOf(a, meta).value.quality == t[i..j + 1]
                            && forall i', j' :: QualityToken(t, i', j') ==> i <= i')
        && (!(exists i, j :: QualityToken(t, i, j)) ==> CandidateOf(a, meta).value.quality == "720p")
  {
    QualityMatchIsLeftmostToken(Trim(a.text));
  }

  /** The size falls back from the size in the text, to a non-empty `meta['size']`, to `N/A`. */
  lemma CandidateSizeFallback(a: Anchor, meta: map<string, string>)
    requires CandidateOf(a, meta).Some?
    ensures var t, size := Trim(a.text), CandidateOf(a, meta).value.size;
      && (SizeMatch(t).Some? ==> size == SizeMatch(t).value && Contains(t, size))
      && (SizeMatch(t).None? && "size" in meta && meta["size"] != "" ==> size == meta["size"])
      && (SizeMatch(t).None? && !("size" in meta && meta["size"] != "") ==> size == "N/A")
      && size != ""
  {
    var t := Trim(a.text);
    SizeMatchFound(t);
    assert CandidateOf(a, meta).value.size == match SizeMatch(t) case Some(m) => m case None => MetaSizeOr(meta);
  }

  /** A record is among the candidates exactly when some anchor yields it. */
  lemma CandidatesMembers(anchors: seq<Anchor>, meta: map<string, string>)
    ensures forall c :: c in Candidates(anchors, meta) <==> exists i :: 0 <= i < |anchors| && CandidateOf(anchors[i], meta) == Some(c)
  {
    var f := (a: Anchor) => CandidateOf(a, meta);
    Collect.FilterMapMembers(anchors, f);
    assert forall i :: 0 <= i < |anchors| ==> f(anchors[i]) == CandidateOf(anchors[i], meta);
  }

  /**
   * What the sent links are to the candidates: distinct countdown URLs, every candidate's URL
   * present, URLs in order of first appearance, and for each URL the last candidate that had it.
   */
  ghost predicate LinksOfCandidates(links: seq<DownloadCandidate>, cands: seq<DownloadCandidate>)
  {
    && KeyedDedup.DistinctKeys(links, CountdownUrl)
    && (forall u :: KeyedDedup.HasKey(links, CountdownUrl, u) <==> KeyedDedup.HasKey(cands, CountdownUrl, u))
    && (forall i, j :: 0 <= i < j < |links| ==>
          KeyedDedup.KeyIndex(cands, CountdownUrl, links[i].countdownUrl) < KeyedDedup.KeyIndex(cands, CountdownUrl, links[j].countdownUrl))
    && (forall i :: 0 <= i < |links| ==>
          KeyedDedup.LastKeyIndex(cands, CountdownUrl, links[i].countdownUrl) >= 0
          && links[i] == cands[KeyedDedup.LastKeyIndex(cands, CountdownUrl, links[i].countdownUrl)])
    && |links| <= |cands|
  }

  lemma DedupOfCandidates(cands: seq<DownloadCandidate>)
    ensures LinksOfCandidates(KeyedDedup.Dedup(cands, CountdownUrl), cands)
  {
    KeyedDedup.DedupSpec(cands, CountdownUrl);
  }

  /** The links a details response sends, against the candidates of the page. */
  lemma DetailsLinks(page: DetailPage)
    ensures LinksOfCandidates(DetailsOf(page).downloadLinks, Candidates(page.anchors, MetaOf(page.metaTexts)))
  {
    var cands := Candidates(page.anchors, MetaOf(page.metaTexts));
    assert DetailsOf(page).downloadLinks == KeyedDedup.Dedup(cands, CountdownUrl);
    DedupOfCandidates(cands);
  }

  /** The year is the first four-digit run of the title, and `N/A` exactly when there is none. */
  lemma YearOfSpec(title: string)
    ensures YearOf(title) == "N/A" <==> forall i :: !FourDigitsAt(title, i)
    ensures YearOf(title) != "N/A" ==> exists i :: FourDigitsAt(title, i) && YearOf(title) == title[i..i + 4]
                                                && forall k :: 0 <= k < i ==> !FourDigitsAt(title, k)
  {
    var m := YearMatch(title);
    if m.Some? {
      assert m.value[0] != 'N';
    }
  }

  /** The same, for the year a details response sends: it is taken from the trimmed title. */
  lemma DetailsYear(page: DetailPage)
    ensures DetailsOf(page).movieInfo.year == "N/A" <==> forall i :: !FourDigitsAt(Trim(page.titleText), i)
    ensures DetailsOf(page).movieInfo.year != "N/A" ==>
      exists i :: FourDigitsAt(Trim(page.titleText), i) && DetailsOf(page).movieInfo.year == Trim(page.titleText)[i..i + 4]
                  && forall k :: 0 <= k < i ==> !FourDigitsAt(Trim(page.titleText), k)
  {
    var title := Trim(page.titleText);
    assert DetailsOf(page).movieInfo.year == YearOf(title);
    YearOfSpec(title);
  }

  /** Rating defaults to `N/A`; the poster is the `og:image` content, else the poster image source. */
  lemma DetailsFallbacks(page: DetailPage)
    ensures Trim(page.ratingText) == "" ==> DetailsOf(page).movieInfo.rating == "N/A"
    ensures Trim(page.ratingText) != "" ==> DetailsOf(page).movieInfo.rating == Trim(page.ratingText)
    ensures Truthy(page.ogImage) ==> DetailsOf(page).posterUrl == page.ogImage
    ensures !Truthy(page.ogImage) ==> DetailsOf(page).posterUrl == page.posterImgSrc
  {
  }
}
