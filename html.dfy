/**
 * What the scraper sees of a web page once BeautifulSoup has parsed it, and
 * of an HTTP exchange once `requests` has performed it. The selectors the
 * scraper runs are replaced by these records: a search page is its list of
 * `.post` elements, a details page is its table rows of `<td>` cells.
 */
module Html {
  import opened Wrappers

  /** The title anchor `.postTitle > h2 > a` of a post: its text and its `href` attribute, if any. */
  datatype Anchor = Anchor(text: string, href: Option<string>)

  /** The first `img` element of a post and its `src` attribute, if any. */
  datatype Image = Image(src: Option<string>)

  /** One `.post` element of a search results page. */
  datatype Post = Post(titleAnchor: Option<Anchor>, image: Option<Image>)

  /** An `<a>` element inside a table cell. */
  datatype Link = Link(href: Option<string>, text: string)

  /**
   * A `<td>` element. `str` is BeautifulSoup's `.string` (the text of a cell
   * whose content is a single string, absent otherwise), which is what the
   * `string=` filters of `find` and `find_all` test; `text` is its whole
   * text; `links` are the `<a>` elements inside it, in document order.
   */
  datatype Cell = Cell(str: Option<string>, text: string, links: seq<Link>)

  /** A details page: its table rows, each the sequence of its `<td>` cells, in document order. */
  datatype DetailsPage = DetailsPage(rows: seq<seq<Cell>>)

  /** The outcome of one HTTP GET: no response at all (timeout, refused, DNS), or a status and a parsed body. */
  datatype Fetched<+T> = Unreachable | Response(status: int, body: T)

  /** The site's answers for one query: result page number to the response for that page. */
  type SearchSite = int -> Fetched<seq<Post>>

  /** All cells of the page in document order. */
  function Cells(rows: seq<seq<Cell>>): (cs: seq<Cell>)
    ensures forall r, c :: r in rows && c in r ==> c in cs
    ensures forall c :: c in cs ==> exists r :: r in rows && c in r
  {
    if rows == [] then [] else rows[0] + Cells(rows[1..])
  }
}
