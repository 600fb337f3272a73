/**
 * An article page as the parser sees it: not a DOM, but the strings its `select` queries pick
 * out of the page, in document order.
 */
module Html {
  import opened Wrappers
  import opened Articles

  /** A `<span>` element: its text, and the text of the node that follows it. */
  datatype Span = Span(text: string, nextText: string)

  /** A `div.push` reply node: its whole text and the texts of its four labelled spans. */
  datatype PushNode = PushNode(
    text: string,
    tag: string,
    userId: string,
    content: string,
    ipDateTime: string)

  /** The page. */
  datatype Document = Document(
    /** The `href` of `link[rel=canonical]`; `None` when the link or its `href` is missing. */
    canonicalHref: Option<string>,
    /** The `content` of `meta[property=og:title]`, when that element exists. */
    ogTitle: Option<string>,
    /** Every `<span>`, in document order. */
    spans: seq<Span>,
    /** The texts of the `span.article-meta-value` elements: author, board, title, date. */
    metaValues: seq<string>,
    /** The texts of the `span.f2` elements. */
    f2Texts: seq<string>,
    /** The text of `div#main-content`. */
    mainContent: string,
    /** The texts of the `.bbs-content` elements. */
    bbsContents: seq<string>,
    /** The `div.push` reply nodes. */
    pushes: seq<PushNode>,
    /** What reading the article's date gave (the date string parsed by chrono). */
    articleDate: Option<DateTime>)
}
