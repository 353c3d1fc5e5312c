/**
 * `GET /search?q=…`: every element matched by the result selector is shaped into a
 * result record, and only those with both a title and a link are kept, in page order.
 */
module Search {
  import opened Wrappers
  import opened Strings
  import opened Page
  import Collect

  datatype MediaType = Movie | TvShow | Cartoon

  datatype SearchResult = SearchResult(
    title: string,
    mediaType: MediaType,
    posterUrl: Option<string>,  // `undefined` when neither image attribute is set
    rating: string,
    movieUrl: string)

  datatype SearchResponse = SearchResponse(success: bool, count: nat, results: seq<SearchResult>)

  /** The type ternary on the result URL: the TV-show test comes first. */
  function MediaTypeOf(url: string): MediaType
  {
    if Contains(url, "/tvshows/") then TvShow
    else if Contains(url, "/cartoons/") then Cartoon
    else Movie
  }

  /** One selected element, shaped into a record unless its title or link is missing. */
  function ShapeNode(n: SearchNode): Option<SearchResult>
  {
    var title := Trim(n.titleText);
    if title != "" && Truthy(n.firstHref) then
      var url := n.firstHref.value;
      Some(SearchResult(title, MediaTypeOf(url), OrElse(n.imgSrc, n.imgDataSrc),
                        OrDefault(Trim(n.ratingText), "N/A"), url))
    else None
  }

  /** The `results` array after the `.each` loop over the selected elements. */
  function SearchResults(nodes: seq<SearchNode>): seq<SearchResult>
  {
    Collect.FilterMap(nodes, ShapeNode)
  }

  /** The `.each` loop, pushing one record per kept element. */
  method ExtractSearch(nodes: seq<SearchNode>) returns (results: seq<SearchResult>)
    ensures results == SearchResults(nodes)
  {
    results := [];
    for i := 0 to |nodes|
      invariant results == Collect.FilterMap(nodes[..i], ShapeNode)
    {
      var shaped := ShapeNode(nodes[i]);
      if shaped.Some? {
        results := results + [shaped.value];
      }
      Collect.FilterMapSnoc(nodes, ShapeNode, i);
    }
    assert nodes[..|nodes|] == nodes;
  }

  /** The handler: a missing or empty `q` is answered with the 400 message, anything else with the shaped results. */
  method HandleSearch(q: Option<string>, nodes: seq<SearchNode>) returns (r: Result<SearchResponse>)
    ensures r.Err? <==> !Truthy(q)
    ensures r.Err? ==> r.message == "Missing query parameter 'q'"
    ensures r.Ok? ==> r.value.success && r.value.results == SearchResults(nodes) && r.value.count == |r.value.results|
  {
    if !Truthy(q) {
      return Err("Missing query parameter 'q'");
    }
    var results := ExtractSearch(nodes);
    r := Ok(SearchResponse(true, |results|, results));
  }

  // ------------------------------------------------------------ properties

  /** Results keep page order: the results of two runs of elements are those of each, one after the other. */
  lemma SearchResultsAppend(a: seq<SearchNode>, b: seq<SearchNode>)
    ensures SearchResults(a + b) == SearchResults(a) + SearchResults(b)
  {
    Collect.FilterMapAppend(a, b, ShapeNode);
  }

  /** A record is in the output exactly when some element shapes into it. */
  lemma SearchResultsMembers(nodes: seq<SearchNode>)
    ensures forall r :: r in SearchResults(nodes) <==> exists i :: 0 <= i < |nodes| && ShapeNode(nodes[i]) == Some(r)
  {
    Collect.FilterMapMembers(nodes, ShapeNode);
  }

  /** An element is kept exactly when its trimmed title and its first link are both non-empty. */
  lemma ShapeNodeKept(n: SearchNode)
    ensures ShapeNode(n).Some? <==> Trim(n.titleText) != "" && Truthy(n.firstHref)
    ensures ShapeNode(n).Some? ==> ShapeNode(n).value.title == Trim(n.titleText) && ShapeNode(n).value.movieUrl == n.firstHref.value
  {
  }

  /** The rating of a kept element is its trimmed rating text, or `N/A` when that is empty; the poster is `src`, else `data-src`. */
  lemma ShapeNodeFields(n: SearchNode)
    ensures ShapeNode(n).Some? && Trim(n.ratingText) != "" ==> ShapeNode(n).value.rating == Trim(n.ratingText)
    ensures ShapeNode(n).Some? && Trim(n.ratingText) == "" ==> ShapeNode(n).value.rating == "N/A"
    ensures ShapeNode(n).Some? && Truthy(n.imgSrc) ==> ShapeNode(n).value.posterUrl == n.imgSrc
    ensures ShapeNode(n).Some? && !Truthy(n.imgSrc) ==> ShapeNode(n).value.posterUrl == n.imgDataSrc
  {
  }

  /** A record with a trimmed non-empty title, a non-empty link, a rating and the type its link calls for. */
  predicate WellFormedResult(r: SearchResult)
  {
    && r.title != "" && !IsJsSpace(r.title[0]) && !IsJsSpace(r.title[|r.title| - 1])
    && r.movieUrl != "" && r.rating != ""
    && (r.mediaType == TvShow <==> Contains(r.movieUrl, "/tvshows/"))
    && (r.mediaType == Cartoon <==> !Contains(r.movieUrl, "/tvshows/") && Contains(r.movieUrl, "/cartoons/"))
    && (r.mediaType == Movie <==> !Contains(r.movieUrl, "/tvshows/") && !Contains(r.movieUrl, "/cartoons/"))
  }

  lemma ShapeNodeWellFormed(n: SearchNode)
    ensures ShapeNode(n).Some? ==> WellFormedResult(ShapeNode(n).value)
  {
    if ShapeNode(n).Some? {
      var title := Trim(n.titleText);
      var url := n.firstHref.value;
      assert title != "" && !IsJsSpace(title[0]) && !IsJsSpace(title[|title| - 1]);
      assert OrDefault(Trim(n.ratingText), "N/A") != "";
      assert ShapeNode(n).value == SearchResult(title, MediaTypeOf(url), OrElse(n.imgSrc, n.imgDataSrc),
                                                OrDefault(Trim(n.ratingText), "N/A"), url);
    }
  }

  /** Every record of the output is well formed. */
  lemma SearchResultsWellFormed(nodes: seq<SearchNode>)
    ensures forall r :: r in SearchResults(nodes) ==> WellFormedResult(r)
  {
    SearchResultsMembers(nodes);
    forall r | r in SearchResults(nodes) ensures WellFormedResult(r) {
      var i :| 0 <= i < |nodes| && ShapeNode(nodes[i]) == Some(r);
      ShapeNodeWellFormed(nodes[i]);
    }
  }

  /** The output is never longer than the page, and is as long exactly when every element is kept. */
  lemma SearchResultsLength(nodes: seq<SearchNode>)
    ensures |SearchResults(nodes)| <= |nodes|
    ensures |SearchResults(nodes)| == |nodes| <==> forall i :: 0 <= i < |nodes| ==> ShapeNode(nodes[i]).Some?
  {
    Collect.FilterMapLength(nodes, ShapeNode);
  }
}
