# Senal Tech scraper engine, modelled in Dafny

`generateExpressScript` in `services/codeGenerator.ts` returns the full text of an
Express server that scrapes a media site. This project models that server's logic:

- **URL transformation** (`transformUrl`). This is an ordered table of legacy
  storage-node prefixes (`https://google.com/serverNN/1:/`) and their canonical
  replacements on `cloud.sonic-cloud.online`. After the table, URLs that mention the
  streaming host go through a fixed chain of rewrites:
  - the leftmost `.mp4` that ends the URL or is followed by `?` becomes `?ext=mp4`,
    and a `?` after it is consumed; the same then happens for `.mkv` and `.zip`;
  - the first `??` collapses to `?`;
  - the first `?ext=` becomes `&ext=`, then the first `?bot=` becomes `&bot=`;
  - if no `?` is left, the first `&` becomes `?`.
- **`/search`**. Every selected node is shaped into a result record. A node is kept
  only when it has both a title and a link, and its type follows from substring tests
  on the link.
- **`/details`**. The handler builds a metadata dictionary from `key: value` list
  items. It picks download candidates among the anchors, with their quality and size
  taken from patterns and fallbacks, and takes the year from the first four-digit run
  of the title. The candidates are deduplicated by countdown URL.
- **`/download`**. The `add` helper drops empty and `#` links and rewrites direct
  links. Anchors are classified in a fixed priority order. Script blocks that mention
  `href` are scanned for URLs on the streaming host. The options are deduplicated by
  download URL, and `success` holds exactly when at least one option is left.

HTML parsing and selector evaluation are not modelled. A fetched page is an input
record (module `Page`) holding what each selector yields, with `None` for an absent
attribute. Each regular expression is a hand-written matcher (module `Patterns`). Each
non-global match is proved to exist exactly when the text holds a reading of its pattern,
and to be the reading that starts leftmost. The global URL scan (`/g`) is proved to return
the leftmost match first and go on where that match ends, and to come back empty exactly
when the text holds no URL match. JavaScript
`Map` deduplication (module `KeyedDedup`) keeps each key at its first position with
its last value.

The code is stated in its own form. `transformUrl` is a method with the two nested
loops, and it keeps the inner `break`, which leaves only the inner loop, so the outer
loop runs on. It is proved equal to a first-match-wins function. Each handler's
`.each` loop is a method that appends to a sequence or writes into a map, and it is
proved equal to a fold over the page. The classification ternaries and the `Map`
expressions are functions.

Four behaviours of the code are easy to misread, and the model keeps each of them:

- `new Map(...).values()` keeps the **last** record for a repeated key, at that key's
  first position. It does not keep the first record.
- URLs found in script blocks go through `add(…, "direct")`, so they **are** passed
  through `transformUrl`.
- The host test is a substring test (`includes('sonic-cloud.online')`), not a
  comparison of host names.
- The rewrite of the first `?ext=` to `&ext=` is unconditional. It applies whether or not
  an earlier `?` exists.

The extension rewrite also treats a file link that already carries a query badly, and the
model keeps that too. `/\.mp4(\?|$)/` consumes the `?`, so `…/a.mp4?x=1` becomes
`…/a?ext=mp4x=1`, and the old parameter is fused onto the `ext` value
(UrlTransform.TransformQueryExample).

## Model

| member | source | states |
|---|---|---|
| Strings.IndexOf | services/codeGenerator.ts:58 | the first index where the pattern occurs, with no earlier occurrence; -1 exactly when it never occurs (`includes` is `IndexOf >= 0`) |
| Strings.ReplaceFirst | services/codeGenerator.ts:51 | a string pattern replaces only its first occurrence: the text before it is kept, the replacement sits at that index, and the text after the occurrence follows the replacement; without an occurrence the string is unchanged |
| Strings.ReplaceFirstAtStart | services/codeGenerator.ts:50-51 | replacing a prefix the URL starts with swaps exactly that prefix |
| Strings.Trim | services/codeGenerator.ts:104 | the trimmed text is no longer than the input and starts and ends with a non-whitespace character |
| Strings.TrimIsSlice | services/codeGenerator.ts:104 | what `trim` keeps is a contiguous slice of the input |
| Strings.TrimCutsSpace | services/codeGenerator.ts:104 | everything `trim` cuts from either end is JavaScript whitespace |
| Strings.TrimKeepsOut | services/codeGenerator.ts:148 | trimming adds no character (a colon-free key stays colon-free) |
| Strings.LowerKeepsOut | services/codeGenerator.ts:148 | lower-casing does not bring in a colon |
| Patterns.QualityEndAt | services/codeGenerator.ts:159-160 | returns the end of the `\d+p` token starting at the index, or -1 when no such token starts there |
| Patterns.QualityStartFrom | services/codeGenerator.ts:159-160 | the leftmost start of a `\d+p` token at or after the index, and no token starts before it |
| Patterns.QualityMatchIsLeftmostToken | services/codeGenerator.ts:159-160 | the quality match exists exactly when some `\d+p` token occurs, and it is the leftmost token |
| Patterns.SizeEndAt | services/codeGenerator.ts:161 | a size match found at an index is a reading of `\d+\.?\d*\s*(GB\|MB)` (digits, an optional point, digits, whitespace, a unit in either case) that ends where the match ends |
| Patterns.SizeEndAtComplete | services/codeGenerator.ts:161 | every way of reading digits, optional point, digits, whitespace and unit at an index is found by the greedy matcher, ending at the same place |
| Patterns.SizeStartFromHit | services/codeGenerator.ts:161 | the start the size search returns is the start of a size match |
| Patterns.SizeStartFromLeftmost | services/codeGenerator.ts:161 | the size search returns the leftmost start: no size match starts before the one it returns |
| Patterns.SizeMatchFound | services/codeGenerator.ts:161 | the size match is a piece of the text, at least three characters long, starting with a digit and ending with a unit |
| Patterns.SizeMatchComplete | services/codeGenerator.ts:161 | a size token anywhere in the text makes the size match succeed |
| Patterns.SizeMatchIsLeftmostToken | services/codeGenerator.ts:161 | the size match exists exactly when the text holds a reading of the size pattern, and it is the reading that starts leftmost |
| Patterns.YearStartFrom | services/codeGenerator.ts:169 | the leftmost start of four consecutive digits at or after the index, with none before it |
| Patterns.YearMatch | services/codeGenerator.ts:169 | a year match exists exactly when four consecutive digits occur; it is those four digits at the leftmost such position |
| Patterns.UrlEndAt | services/codeGenerator.ts:217 | a URL match found at an index is `http://` or `https://` followed by at least one character that is neither whitespace nor a quote; it runs as far as such characters go; -1 exactly when no URL match starts at the index |
| Patterns.UrlMatches | services/codeGenerator.ts:217 | every match of the global URL pattern is a URL match and a piece of the script text |
| Patterns.UrlMatchesFromFirst | services/codeGenerator.ts:217 | the scan's first match is the one starting leftmost, and the scan goes on where it ends |
| Patterns.UrlMatchesFromNone | services/codeGenerator.ts:217 | the scan from an index is empty exactly when no match starts at or after it |
| Patterns.UrlMatchesEmpty | services/codeGenerator.ts:217 | `match(/…/g)` finds nothing exactly when the text holds no URL match anywhere |
| Patterns.UrlMatchesQuoted | services/codeGenerator.ts:216-217 | in `href='<url>'` the scan finds exactly that URL |
| Patterns.StripBackslashes | services/codeGenerator.ts:219 | the result has no backslash, is no longer than the input, and keeps every other character with its multiplicity |
| Patterns.StripAppend | services/codeGenerator.ts:219 | backslash removal distributes over concatenation |
| Patterns.StripKeepsOut | services/codeGenerator.ts:219 | backslash removal introduces no character |
| KeyedDedup.MapSetFacts | services/codeGenerator.ts:171 | one `Map.set` keeps keys distinct; it replaces in place the value under an existing key, or appends a new key at the end |
| KeyedDedup.DedupKeysDistinct | services/codeGenerator.ts:171 | the deduplicated list has pairwise distinct keys |
| KeyedDedup.DedupKeepsKeys | services/codeGenerator.ts:171 | a key occurs in the output exactly when it occurs in the input |
| KeyedDedup.DedupFirstOccurrenceOrder | services/codeGenerator.ts:171 | output keys are in the order of their first occurrence in the input |
| KeyedDedup.DedupLastValue | services/codeGenerator.ts:171 | each output entry is the last input element with its key |
| KeyedDedup.DedupLength | services/codeGenerator.ts:225-226 | the output is never longer than the input, and is empty exactly when the input is |
| KeyedDedup.DedupOfDistinct | services/codeGenerator.ts:171 | a list whose keys are already distinct is returned unchanged |
| KeyedDedup.DedupIdempotent | services/codeGenerator.ts:171 | deduplicating twice equals deduplicating once |
| KeyedDedup.DedupSpec | services/codeGenerator.ts:225 | all the dedup properties together, as the handlers use them |
| Collect.FilterMapAppend | services/codeGenerator.ts:102-118 | an `.each` loop over two runs of elements pushes the records of the first run, then those of the second |
| Collect.FilterMapMembers | services/codeGenerator.ts:102-118 | a record is pushed exactly when some element yields it |
| Collect.FilterMapLength | services/codeGenerator.ts:102-118 | at most one record per element; one per element exactly when every element pushes, none exactly when no element does |
| UrlTransform.FirstPrefixFrom | services/codeGenerator.ts:49-53 | the first pattern of a rule that the URL starts with, none earlier; -1 when none matches |
| UrlTransform.ReplaceExt | services/codeGenerator.ts:59-60 | the extension rewrite never shortens the URL, and changes it exactly when `.ext` followed by `?` or the end occurs |
| UrlTransform.ReplaceExtLeftmost | services/codeGenerator.ts:59-60 | at the leftmost match, a final `.ext` becomes `?ext=<ext>`, and `.ext?` becomes `?ext=<ext>` with the `?` consumed and the rest of the URL kept |
| UrlTransform.NormalizeCloud | services/codeGenerator.ts:58-64 | the fixup chain shortens the URL by at most one character |
| UrlTransform.Transform | services/codeGenerator.ts:44 | the result is empty exactly when the input is empty or starts with `#` |
| UrlTransform.TableShape | services/codeGenerator.ts:35-41 | every replacement is on `https://cloud…` and every pattern on `https://google…` |
| UrlTransform.TableCodes | services/codeGenerator.ts:35-41 | each pattern carries its rule's digit at index 25 and, in multi-pattern rules, its own digit at index 26 |
| UrlTransform.ReplacementShape | services/codeGenerator.ts:36-40 | rule `a` maps to `https://cloud.sonic-cloud.online/server<a+1>/` |
| UrlTransform.ReplacementHasHost | services/codeGenerator.ts:36-40 | every replacement names the streaming host at index 14 |
| UrlTransform.PatternsExclusive | services/codeGenerator.ts:35-41 | a URL starts with at most one pattern of the whole table |
| UrlTransform.CloudNotRemapped | services/codeGenerator.ts:48-55 | a URL already on the cloud prefix matches no legacy pattern |
| UrlTransform.MapPrefixUnmatched | services/codeGenerator.ts:48-55 | a URL that no rule matches leaves the mapping loop unchanged |
| UrlTransform.MapPrefixMatchedIsCloud | services/codeGenerator.ts:48-55 | a URL that some rule matches leaves the loop on the cloud prefix |
| UrlTransform.MapPrefixStep | services/codeGenerator.ts:48-55 | one pass of the outer loop applies rule `i` to what the earlier passes left, and this agrees with first-match-wins |
| UrlTransform.MapPrefixFirstMatch | services/codeGenerator.ts:48-55 | the first matching rule in table order decides the mapping |
| UrlTransform.TransformUrl | services/codeGenerator.ts:43-67 | the two nested loops with the inner `break`, then the rewrite chain, compute the first-match-wins transformation |
| UrlTransform.MapPrefixListedPrefix | services/codeGenerator.ts:35-55 | a URL starting with a listed legacy prefix has exactly that prefix swapped for its rule's replacement |
| UrlTransform.TransformListedPrefix | services/codeGenerator.ts:48-58 | such a URL is then on the streaming host and goes through the fixup chain |
| UrlTransform.MapPrefixIdempotent | services/codeGenerator.ts:48-55 | no rule re-applies: mapping an already mapped URL changes nothing |
| UrlTransform.TransformUnmatchedUnchanged | services/codeGenerator.ts:44-66 | a URL that matches no prefix and does not mention the streaming host is returned unchanged |
| UrlTransform.ReplaceExtAtEnd | services/codeGenerator.ts:59-60 | a final `.ext`, with no earlier `.ext`, becomes `?ext=ext` |
| UrlTransform.ExtRewritesAtEnd | services/codeGenerator.ts:59-60 | of the three extension rewrites, only the one for the final extension fires |
| UrlTransform.QueryFixupsOnExt | services/codeGenerator.ts:62-63 | on `m?ext=e` without other query marks, `?ext=` turns into `&ext=` and back again: `&` before `?` is undone |
| UrlTransform.NormalizeCloudFile | services/codeGenerator.ts:58-63 | a query-free file on the host with a single final extension ends up as `name?ext=<ext>` |
| UrlTransform.ReplacementNoQuery | services/codeGenerator.ts:36-40 | replacements hold no `?` or `&` |
| UrlTransform.ReplacementNoExt | services/codeGenerator.ts:36-40 | a replacement followed by a name without `.mp4` (or `.mkv`, `.zip`) holds none either, since every replacement ends in `/` |
| UrlTransform.TransformListedFile | services/codeGenerator.ts:35-63 | end to end: `<legacy prefix><name>.<ext>` becomes `<replacement><name>?ext=<ext>` for any name free of `?`, `&`, `.mp4`, `.mkv` and `.zip`, dots allowed |
| UrlTransform.TransformDottedExample | services/codeGenerator.ts:36-63 | `https://google.com/server11/1:/Movie.2021.1080p.mp4` becomes `https://cloud.sonic-cloud.online/server1/Movie.2021.1080p?ext=mp4` |
| UrlTransform.TransformAmpHasQuery | services/codeGenerator.ts:58-63 | after cloud normalization the URL never has an `&` without a `?` |
| UrlTransform.TransformExample | services/codeGenerator.ts:36-63 | `https://google.com/server11/1:/abc.mp4` becomes `https://cloud.sonic-cloud.online/server1/abc?ext=mp4` |
| UrlTransform.ExtRewritesBeforeMark | services/codeGenerator.ts:59-60 | on `m.ext?q`, only the rewrite for `ext` fires, giving `m?ext=<ext>q` |
| UrlTransform.NormalizeCloudFileQuery | services/codeGenerator.ts:58-63 | a file on the host with a query `q` ends up as `name?ext=<ext>q`: the `?` before `q` is lost |
| UrlTransform.TransformListedFileQuery | services/codeGenerator.ts:35-63 | end to end: `<legacy prefix><name>.<ext>?<q>` becomes `<replacement><name>?ext=<ext><q>` for any name free of `?`, `&`, `.mp4`, `.mkv` and `.zip`, and a query with no dot, `?` or `&` |
| UrlTransform.TransformQueryExample | services/codeGenerator.ts:36-63 | `https://google.com/server11/1:/a.mp4?x=1` becomes `https://cloud.sonic-cloud.online/server1/a?ext=mp4x=1` |
| Search.ExtractSearch | services/codeGenerator.ts:100-118 | the node loop pushes the shaped records of the kept nodes, in node order |
| Search.HandleSearch | services/codeGenerator.ts:95-120 | a missing or empty `q` gets the 400 message and nothing else does; otherwise `success`, the results and their count |
| Search.SearchResultsAppend | services/codeGenerator.ts:102-118 | results keep node order: the results of two runs of nodes are those of each, in turn |
| Search.SearchResultsMembers | services/codeGenerator.ts:102-118 | a record is in the output exactly when some node shapes into it |
| Search.ShapeNodeKept | services/codeGenerator.ts:104-109 | a node is kept exactly when its trimmed title and its first link are both non-empty; the title and link are taken from it |
| Search.ShapeNodeFields | services/codeGenerator.ts:106-107 | the rating is the trimmed rating text, or `N/A` when that is empty; the poster is `src`, else `data-src` |
| Search.ShapeNodeWellFormed | services/codeGenerator.ts:104-116 | a kept record has a trimmed non-empty title, a link and a rating; its type is `tvshow` iff the link contains `/tvshows/`, else `cartoon` iff it contains `/cartoons/`, else `movie` |
| Search.SearchResultsWellFormed | services/codeGenerator.ts:102-118 | every output record is well formed in that sense |
| Search.SearchResultsLength | services/codeGenerator.ts:102-120 | the count never exceeds the number of nodes, and equals it exactly when every node is kept |
| Details.FieldEnd | services/codeGenerator.ts:147 | the next colon at or after the index, with no colon before it, or the end of the text |
| Details.SplitKeyValue | services/codeGenerator.ts:147 | key and value hold no colon, and the text is `key:value` followed by nothing or by another colon |
| Details.SplitKeepsSecondSegment | services/codeGenerator.ts:147 | only the segment between the first and second colon becomes the value; what follows is dropped |
| Details.SplitUnique | services/codeGenerator.ts:147 | a text splits around its first two colons in one way only |
| Details.KeyShape | services/codeGenerator.ts:148 | a key is trimmed, lower-case and colon-free |
| Details.MetaEntryShape | services/codeGenerator.ts:146-148 | a list item yields an entry exactly when it holds a colon, and every key has that shape |
| Details.LastEntryFor | services/codeGenerator.ts:148 | the last entry with the key, and no later one has it |
| Details.BuildMeta | services/codeGenerator.ts:143-150 | the list-item loop builds the dictionary that writing the entries in turn gives |
| Details.WriteEntriesLastWins | services/codeGenerator.ts:143-150 | a key is present exactly when some entry has it, and its value is the last such entry's |
| Details.MetaOfLastWins | services/codeGenerator.ts:143-150 | later list items overwrite earlier ones with the same key |
| Details.CollectCandidates | services/codeGenerator.ts:152-164 | the anchor loop pushes the candidate record of every candidate anchor, in page order |
| Details.CandidateOfSpec | services/codeGenerator.ts:155-162 | an anchor is a candidate exactly when its link contains `/api-` or `/links/` or its trimmed text holds a `\d+p` token; the countdown URL is the link; the quality is the leftmost such token, otherwise `720p` |
| Details.CandidateSizeFallback | services/codeGenerator.ts:161 | the size is the size in the text, else a non-empty `meta['size']`, else `N/A`; it is never empty |
| Details.CandidatesMembers | services/codeGenerator.ts:152-164 | a record is a candidate exactly when some anchor yields it |
| Details.DedupOfCandidates | services/codeGenerator.ts:171 | the deduplicated candidates: distinct countdown URLs, all present, in first-appearance order, each the last candidate with its URL |
| Details.DetailsLinks | services/codeGenerator.ts:152-171 | the links a details response sends relate in that way to the page's candidates |
| Details.YearOfSpec | services/codeGenerator.ts:169 | the year is the leftmost four-digit run of the title, and `N/A` exactly when there is none |
| Details.DetailsYear | services/codeGenerator.ts:138-169 | the same, for the year of a response, taken from the trimmed title |
| Details.DetailsFallbacks | services/codeGenerator.ts:139-141 | the rating defaults to `N/A`; the poster is the `og:image` content, else the poster image source |
| Details.ExtractDetails | services/codeGenerator.ts:138-171 | the handler's steps compute the `data` object of the page |
| Details.HandleDetails | services/codeGenerator.ts:132-173 | a missing or empty `url` gets the 400 message and nothing else does; otherwise the page's `data` |
| Download.AddSpec | services/codeGenerator.ts:192-195 | `add` drops exactly the empty and `#` links; it keeps type and label; only `direct` links go through the transformation |
| Download.ClassifyAgreesWithHost | services/codeGenerator.ts:203-210 | a `mega`, `google` or `telegram` anchor has the matching host in its link; an anchor is skipped exactly when no host test holds and its id is neither `link` nor `generate`; `Direct Stream` is used exactly in the id case |
| Download.ClassifyPriority | services/codeGenerator.ts:203-210 | the earliest test that holds decides: streaming host or `google.com/server`, then `mega.nz`, then `drive.google.com`, then `t.me/`; a direct-stream link of type `direct` mentions neither Telegram nor Drive |
| Download.AnchorLinkAgrees | services/codeGenerator.ts:199-210 | what an anchor pushes agrees with its type; a non-`#` link on the streaming host is a direct `Sonic Cloud` option with the transformed link |
| Download.StripKeepsHead | services/codeGenerator.ts:217-219 | a cleaned URL match still starts with `h`, so `add` never drops it |
| Download.ScriptUrlLinkSpec | services/codeGenerator.ts:219-220 | a URL match pushes exactly the direct `Extracted Direct` record of its transformed cleaned form, when that form names the host |
| Download.ScriptLinksMembers | services/codeGenerator.ts:215-221 | a script block yields records only when it mentions `href`; they are exactly the records extracted from its matches whose cleaned form names the streaming host, at most one per match |
| Download.AllScriptLinksAgree | services/codeGenerator.ts:214-223 | every record from the script loop is direct, labelled `Extracted Direct`, and agrees with its type |
| Download.RawLinksAgree | services/codeGenerator.ts:190-223 | every record in `resolved` agrees with its type |
| Download.ResolveOptions | services/codeGenerator.ts:225-226 | the options: distinct download URLs, every collected URL present, in first-appearance order, each the last record with its URL, every one agreeing with its type; `count` is their number; `success` exactly when something was collected |
| Download.AddTo | services/codeGenerator.ts:192-195 | `add` appends the record `Add` describes, passing direct links through `transformUrl` |
| Download.AddAnchor | services/codeGenerator.ts:199-210 | the classification chain and `add` push what the anchor's classification gives |
| Download.AddMatch | services/codeGenerator.ts:218-221 | one URL match is cleaned and added when it names the streaming host |
| Download.AddScript | services/codeGenerator.ts:215-222 | one script block appends the records of its URL matches, when it mentions `href` |
| Download.CollectAnchorLinks | services/codeGenerator.ts:198-211 | the anchor loop pushes what each anchor yields, in page order |
| Download.CollectScriptLinks | services/codeGenerator.ts:214-223 | the script loop appends what each block yields, in page order |
| Download.ResolveDownloads | services/codeGenerator.ts:190-226 | the two loops and the dedup compute the response from the page |
| Download.HandleDownload | services/codeGenerator.ts:185-226 | a missing or empty `url` gets the 400 message and nothing else does; otherwise the page's response |
| Download.NoHostAfterScheme | services/codeGenerator.ts:217 | a scheme followed by text without `s` never contains the streaming host |
| Download.EmittedScanFindsNothing | services/codeGenerator.ts:217 | with the pattern as emitted (`[^s'"]`), no URL match is ever added |
| Download.IntendedScanFindsHost | services/codeGenerator.ts:217-220 | with the intended pattern, a URL on the streaming host is a match and is added as a direct `Extracted Direct` link |
| Download.HostUrlLink | services/codeGenerator.ts:218-220 | a backslash-free URL match naming the streaming host is pushed as a transformed `Extracted Direct` direct link |
| Download.IntendedScriptFindsLink | services/codeGenerator.ts:215-222 | with the intended pattern, a script block `href='<url>'` whose URL names the host yields exactly that URL, transformed, as its one option |
| Download.IntendedScriptExample | services/codeGenerator.ts:215-222 | the block `href='https://cloud.sonic-cloud.online/server1/a.mp4'` yields that URL, transformed, as a direct option |

## Left out

- `/health`, the `axios` fetches, request headers and timeouts, `encodeURIComponent` on the search query, Express routing, `cors` and `app.listen` are left out: they are I/O. Each handler is a method over the page its fetch returned.
- The 500 and 503 error envelopes are left out, because they report network failures. The 400 answers to a missing `q` or `url` are modelled as `Err` results.
- cheerio's HTML parsing and selectors are left out. The `Page` records hold what each selector yields: the first heading's text, the first anchor's `href`, the concatenated rating text, and so on.
- `generateExpressScript` itself only returns a constant text, so it is not modelled, and `App.tsx` is not part of this model (it is the UI).
- The regular expressions at lines 59 and 219 lose backslashes in the template literal. `/\.mp4(\?|$)/` is emitted as `/.mp4(?|$)/`, and the second `/\\/g` is emitted as `/\/g`. Neither is a valid regular expression literal. The model uses the intended patterns.
- Strings.ToLower: lower-cases ASCII letters only. JavaScript `toLowerCase` also maps non-ASCII letters.
- Details.MetaEntry: the dictionary is a plain map. It does not model JavaScript object behaviour for keys such as `__proto__`.
- The lower-cased anchor text `t` in the download loop (line 200) is never used, so it is not modelled.
- HTTP query values are `Option<string>`, and a repeated parameter (an array) is not modelled.
- Download.AgreesWithKind: for a direct link it states only that the URL is the transformation of some non-empty link that does not start with `#`. The exact link is stated by AnchorLinkAgrees and ScriptUrlLinkSpec.
- UrlTransform.NormalizeCloudFile: covers a URL with no `?`, `&`, `.mp4`, `.mkv` or `.zip` before the final extension. Other URLs are covered by TransformAmpHasQuery and the general definition.
- TransformListedFile: covers names with no `?`, `&`, `.mp4`, `.mkv` or `.zip`. A name holding one of those goes through earlier rewrites, covered only by the general definition.
- TransformListedFileQuery: covers the same names as TransformListedFile, with a query that has no dot, `?` or `&`.
- UrlTransform.NormalizeCloudFileQuery: covers a query with no dot, `?` or `&`. A query holding another `.mp4`, `.mkv` or `.zip` is covered only by the general definition.

## Findings

| source | as written | input that shows it | evidently intended | confidence | as-written member | corrected member |
|---|---|---|---|---|---|---|
| services/codeGenerator.ts:217 | inside the template literal, `[^\s'"]` is emitted as `[^s'"]`, so a URL match stops at its first `s` after the scheme | a script holding `href='https://cloud.sonic-cloud.online/server1/a.mp4'`: the emitted pattern matches `https://cloud.`, which does not name the host, so nothing is added | a run of characters that are neither whitespace nor quotes, so the whole URL is matched and added | high, not executed | Download.EmittedScanFindsNothing | Download.IntendedScriptFindsLink |
