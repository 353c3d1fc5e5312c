/**
 * What the HTML layer hands to the handlers. Selector evaluation and parsing are not
 * modelled: each fetched page is given as the sequence of records its selectors yield,
 * with `None` for an attribute that is absent (`attr` returning `undefined`).
 */
module Page {
  import opened Wrappers

  /** One element matched by the search-result selector, seen through its sub-selectors. */
  datatype SearchNode = SearchNode(
    titleText: string,          // text of the first heading or `.title`
    firstHref: Option<string>,  // `href` of the first anchor
    imgSrc: Option<string>,     // `src` of the first image
    imgDataSrc: Option<string>, // `data-src` of the first image
    ratingText: string)         // text of the rating elements

  /** An anchor: its `href` and `id` attributes and its text. */
  datatype Anchor = Anchor(href: Option<string>, text: string, id: Option<string>)

  /** A details page. */
  datatype DetailPage = DetailPage(
    titleText: string,            // first `.entry-title` / `.sheader h1`
    ogImage: Option<string>,      // `content` of the `og:image` meta tag
    posterImgSrc: Option<string>, // `src` of the first `.poster img`
    descriptionText: string,      // first description paragraph
    ratingText: string,           // first rating element
    metaTexts: seq<string>,       // texts of the `.custom_fields` / `.info-list li` elements
    anchors: seq<Anchor>)         // every anchor, in document order

  /** A countdown page: its anchors, and the inner HTML of each script block (`null` as `None`). */
  datatype DownloadPage = DownloadPage(anchors: seq<Anchor>, scripts: seq<Option<string>>)
}
