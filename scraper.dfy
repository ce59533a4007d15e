/**
 * The AudiobookBay scraper of `app/scraper/audiobookbay_scraper.py`: the
 * paginated search, the post filter, the info-hash and tracker lookups, the
 * magnet URI and the title sanitizer. HTTP and HTML parsing are inputs (see
 * module `Html`); the configuration read from the environment is a `Config`.
 */
module Scraper {
  import opened Wrappers
  import opened PyStr
  import opened UrlQuote
  import opened Html

  /** `ABB_HOSTNAME` and `PAGE_LIMIT`. */
  datatype Config = Config(hostname: string, pageLimit: int)

  /** The configuration when neither variable is set. */
  const DefaultConfig := Config("audiobookbay.lu", 5)

  /** The six public trackers used when a details page lists none, in this order. */
  const DefaultTrackers: seq<string> := [
    "udp://tracker.openbittorrent.com:80",
    "udp://opentor.org:2710",
    "udp://tracker.ccc.de:80",
    "udp://tracker.blackunicorn.xyz:6969",
    "udp://tracker.coppersurfer.tk:6969",
    "udp://tracker.leechers-paradise.org:6969"
  ]

  /** The placeholder cover of a post without an image. */
  const DefaultCover := "/static/images/default-cover.jpg"

  /** One search result: the `title`, `link` and `cover` entries of the result dictionary. */
  datatype PostRecord = PostRecord(title: string, link: string, cover: string)

  // ===========================================================================
  // Post extraction
  // ===========================================================================

  /** The `src` of a post's first image, when there is an image and it has one. */
  function ImageSource(p: Post): Option<string> {
    match p.image
    case None => None
    case Some(img) => img.src
  }

  /**
   * The cover URL: a protocol-relative source gets `https:`, a root-relative
   * one the site's base, any other is kept; no source gives the placeholder.
   */
  function NormalizeCover(host: string, src: Option<string>): (cover: string)
    ensures cover == DefaultCover <==> src == None || src == Some([])
    ensures src.Some? && StartsWith(src.value, "//") ==> cover == "https:" + src.value
    ensures src.Some? && StartsWith(src.value, "/") && !StartsWith(src.value, "//") ==>
      cover == "https://" + host + src.value
    ensures src.Some? && src.value != [] && !StartsWith(src.value, "/") ==> cover == src.value
  {
    match src
    case None => DefaultCover
    case Some(s) =>
      if s == [] then DefaultCover
      else if StartsWith(s, "//") then
        assert ("https:" + s)[0] != DefaultCover[0];
        "https:" + s
      else if StartsWith(s, "/") then
        assert ("https://" + host + s)[0] != DefaultCover[0];
        "https://" + host + s
      else
        assert s[0] != DefaultCover[0];
        s
  }

  /** Normalizing a cover a second time changes nothing, unless it is the placeholder. */
  lemma CoverNormalizationIdempotent(host: string, src: Option<string>)
    ensures var cover := NormalizeCover(host, src);
      cover != DefaultCover ==> NormalizeCover(host, Some(cover)) == cover
  {
    var cover := NormalizeCover(host, src);
    if cover != DefaultCover && src.Some? && StartsWith(src.value, "/") {
      assert cover[0] == 'h';
    }
  }

  /** A post with a title anchor whose stripped text is not blank and whose `href` is set and not empty. */
  predicate HasTitleAndHref(p: Post) {
    && p.titleAnchor.Some?
    && Strip(p.titleAnchor.value.text) != []
    && p.titleAnchor.value.href.Some? && p.titleAnchor.value.href.value != []
  }

  /**
   * What one `.post` element contributes: nothing when it lacks a title or an
   * `href`; otherwise the stripped title, the `href` on the site, and the
   * normalised cover.
   */
  function ExtractPost(host: string, p: Post): Option<PostRecord> {
    match p.titleAnchor
    case None => None
    case Some(a) =>
      var title := Strip(a.text);
      var href := match a.href case None => "" case Some(h) => h;
      if title == [] || href == [] then None
      else Some(PostRecord(title, "https://" + host + href, NormalizeCover(host, ImageSource(p))))
  }

  /**
   * A post yields a record exactly when it has a title and an `href`; the
   * record holds the stripped title, the `href` on the site and the
   * normalised cover.
   */
  lemma ExtractPostFields(host: string, p: Post)
    ensures ExtractPost(host, p).Some? <==> HasTitleAndHref(p)
    ensures ExtractPost(host, p).Some? ==>
      && ExtractPost(host, p).value.title == Strip(p.titleAnchor.value.text)
      && ExtractPost(host, p).value.link == "https://" + host + p.titleAnchor.value.href.value
      && ExtractPost(host, p).value.cover == NormalizeCover(host, ImageSource(p))
  {
  }

  /** A record the filter can emit: a non-empty stripped title and a link on the site. */
  predicate IsSiteRecord(host: string, r: PostRecord) {
    && r.title != [] && !IsSpace(r.title[0]) && !IsSpace(r.title[|r.title| - 1])
    && |r.link| > |"https://" + host|
    && r.link[..|"https://" + host|] == "https://" + host
  }

  /** The records of a page's posts, in page order, skipping the posts `ExtractPost` drops. */
  function ExtractPosts(host: string, posts: seq<Post>): (rs: seq<PostRecord>)
    ensures |rs| <= |posts|
    ensures forall r :: r in rs ==> IsSiteRecord(host, r)
  {
    if posts == [] then []
    else
      var rest := ExtractPosts(host, posts[1..]);
      match ExtractPost(host, posts[0])
      case None => rest
      case Some(r) =>
        assert r.link[..|"https://" + host|] == "https://" + host;
        [r] + rest
  }

  /** Extraction works post by post: the records of two runs of posts are the two runs' records, in order. */
  lemma {:induction false} ExtractPostsAppend(host: string, a: seq<Post>, b: seq<Post>)
    ensures ExtractPosts(host, a + b) == ExtractPosts(host, a) + ExtractPosts(host, b)
  {
    if a == [] {
      assert a + b == b;
    } else {
      assert (a + b)[0] == a[0];
      assert (a + b)[1..] == a[1..] + b;
      ExtractPostsAppend(host, a[1..], b);
      var x, y := ExtractPosts(host, a[1..]), ExtractPosts(host, b);
      match ExtractPost(host, a[0]) {
        case None =>
        case Some(r) =>
          assert [r] + (x + y) == ([r] + x) + y;
      }
    }
  }

  /** A record is emitted exactly when some post of the page yields it. */
  lemma {:induction false} ExtractPostsMembership(host: string, posts: seq<Post>, r: PostRecord)
    ensures r in ExtractPosts(host, posts) <==> exists p :: p in posts && ExtractPost(host, p) == Some(r)
  {
    if posts != [] {
      ExtractPostsMembership(host, posts[1..], r);
      if r in ExtractPosts(host, posts[1..]) {
        var p :| p in posts[1..] && ExtractPost(host, p) == Some(r);
        assert p in posts;
      }
      assert forall p :: p in posts ==> p == posts[0] || p in posts[1..];
    }
  }

  /** A page whose every post has a title and an `href` loses none of them. */
  lemma {:induction false} ExtractPostsKeepsWellFormed(host: string, posts: seq<Post>)
    requires forall p :: p in posts ==> HasTitleAndHref(p)
    ensures |ExtractPosts(host, posts)| == |posts|
  {
    if posts != [] {
      assert posts[0] in posts;
      ExtractPostFields(host, posts[0]);
      forall p | p in posts[1..] ensures HasTitleAndHref(p) {
        assert p in posts;
      }
      ExtractPostsKeepsWellFormed(host, posts[1..]);
    }
  }

  /** `_extract_posts_from_page`: appends the record of each kept post to `results`. */
  method ExtractPostsFromPage(host: string, posts: seq<Post>) returns (results: seq<PostRecord>)
    ensures results == ExtractPosts(host, posts)
    ensures forall r :: r in results ==> IsSiteRecord(host, r)
  {
    results := [];
    var i := 0;
    while i < |posts|
      invariant 0 <= i <= |posts|
      invariant results == ExtractPosts(host, posts[..i])
    {
      var post := posts[i];
      ExtractPostsAppend(host, posts[..i], [post]);
      assert posts[..i + 1] == posts[..i] + [post];
      match post.titleAnchor {
        case None =>
          i := i + 1;
          continue;
        case Some(anchor) =>
          var title := Strip(anchor.text);
          if title == [] {
            i := i + 1;
            continue;
          }
          var href := match anchor.href case None => "" case Some(h) => h;
          if href == [] {
            i := i + 1;
            continue;
          }
          var link := "https://" + host + href;
          var cover := NormalizeCover(host, ImageSource(post));
          results := results + [PostRecord(title, link, cover)];
      }
      i := i + 1;
    }
    assert posts[..|posts|] == posts;
  }

  // ===========================================================================
  // Paginated search
  // ===========================================================================

  /** `_scrape_search_page` as a value: the page's records, or none when the request failed. */
  function PageResults(cfg: Config, site: SearchSite, page: int): seq<PostRecord> {
    match site(page)
    case Unreachable => []
    case Response(status, posts) => if status != 200 then [] else ExtractPosts(cfg.hostname, posts)
  }

  /** `_scrape_search_page`: a network error or a status other than 200 yields no records. */
  method ScrapeSearchPage(cfg: Config, site: SearchSite, page: int) returns (results: seq<PostRecord>)
    ensures results == PageResults(cfg, site, page)
  {
    var response := site(page);
    match response {
      case Unreachable =>
        return [];
      case Response(status, posts) =>
        if status != 200 {
          return [];
        }
        results := ExtractPostsFromPage(cfg.hostname, posts);
    }
  }

  /** What the search collects from each page number of `site`. */
  function PageFn(cfg: Config, site: SearchSite): int -> seq<PostRecord> {
    p => PageResults(cfg, site, p)
  }

  /** The records of pages 1 to `n`, concatenated in page order. */
  function ConcatPages(pages: int -> seq<PostRecord>, n: int): seq<PostRecord>
    decreases n
  {
    if n <= 0 then [] else ConcatPages(pages, n - 1) + pages(n)
  }

  /** The last page requested when the loop reaches page `from`: the first empty page, or `limit`. */
  function RequestedFrom(pages: int -> seq<PostRecord>, from: int, limit: int): (last: int)
    requires from >= 1
    ensures from - 1 <= last
    decreases limit - from
  {
    if from > limit then from - 1
    else if pages(from) == [] then from
    else RequestedFrom(pages, from + 1, limit)
  }

  /** How many pages the search requests (pages 1 to this number) under the page limit `limit`. */
  function PagesRequested(pages: int -> seq<PostRecord>, limit: int): nat {
    RequestedFrom(pages, 1, limit)
  }

  /** `max_pages`, defaulting to `PAGE_LIMIT`. */
  function EffectiveLimit(cfg: Config, maxPages: Option<int>): int {
    match maxPages
    case None => cfg.pageLimit
    case Some(n) => n
  }

  /** The result of `search_audiobookbay(query, max_pages)` against `site`. */
  function SearchResults(cfg: Config, site: SearchSite, maxPages: Option<int>): seq<PostRecord> {
    var pages := PageFn(cfg, site);
    ConcatPages(pages, PagesRequested(pages, EffectiveLimit(cfg, maxPages)))
  }

  lemma {:induction false} RequestedFromSkips(pages: int -> seq<PostRecord>, from: int, k: int, limit: int)
    requires 1 <= from <= k
    requires k <= limit + 1 || k == from
    requires forall p :: from <= p < k ==> pages(p) != []
    ensures RequestedFrom(pages, from, limit) == RequestedFrom(pages, k, limit)
    decreases k - from
  {
    if from < k {
      RequestedFromSkips(pages, from + 1, k, limit);
    }
  }

  /**
   * The pages requested are exactly 1 to the first page that yields no
   * records, or to the limit when every page yields some; a non-positive
   * limit requests nothing.
   */
  lemma PagesRequestedIsFirstEmptyPage(pages: int -> seq<PostRecord>, limit: int)
    ensures var n := PagesRequested(pages, limit);
      && (limit <= 0 ==> n == 0)
      && (limit > 0 ==> 1 <= n <= limit)
      && (forall p :: 1 <= p < n ==> pages(p) != [])
      && (n < limit ==> pages(n) == [])
  {
    if limit > 0 {
      RequestedFromBounds(pages, 1, limit);
    }
  }

  lemma {:induction false} RequestedFromBounds(pages: int -> seq<PostRecord>, from: int, limit: int)
    requires 1 <= from <= limit
    ensures var n := RequestedFrom(pages, from, limit);
      && from <= n <= limit
      && (forall p :: from <= p < n ==> pages(p) != [])
      && (n < limit ==> pages(n) == [])
    decreases limit - from
  {
    if pages(from) != [] && from < limit {
      RequestedFromBounds(pages, from + 1, limit);
    }
  }

  /**
   * Pages after the first empty one are never looked at: two sites that
   * answer the requested pages alike give the same search, whatever they
   * answer for later pages.
   */
  lemma LaterPagesIgnored(cfg: Config, site: SearchSite, other: SearchSite, maxPages: Option<int>)
    requires forall p :: 1 <= p <= PagesRequested(PageFn(cfg, site), EffectiveLimit(cfg, maxPages)) ==> site(p) == other(p)
    ensures SearchResults(cfg, other, maxPages) == SearchResults(cfg, site, maxPages)
  {
    var pages, others := PageFn(cfg, site), PageFn(cfg, other);
    var limit := EffectiveLimit(cfg, maxPages);
    var n := PagesRequested(pages, limit);
    forall p | 1 <= p <= n ensures others(p) == pages(p) {
      assert site(p) == other(p);
    }
    RequestedFromAgree(pages, others, 1, limit);
    ConcatPagesAgree(pages, others, n);
  }

  lemma {:induction false} RequestedFromAgree(pages: int -> seq<PostRecord>, others: int -> seq<PostRecord>, from: int, limit: int)
    requires from >= 1
    requires forall p :: from <= p <= RequestedFrom(pages, from, limit) ==> pages(p) == others(p)
    ensures RequestedFrom(others, from, limit) == RequestedFrom(pages, from, limit)
    decreases limit - from
  {
    if from <= limit && pages(from) != [] {
      RequestedFromAgree(pages, others, from + 1, limit);
    }
  }

  lemma {:induction false} ConcatPagesAgree(pages: int -> seq<PostRecord>, others: int -> seq<PostRecord>, n: int)
    requires forall p :: 1 <= p <= n ==> pages(p) == others(p)
    ensures ConcatPages(others, n) == ConcatPages(pages, n)
    decreases n
  {
    if n > 0 {
      ConcatPagesAgree(pages, others, n - 1);
    }
  }

  /** The page numbers 1 to `n`, in order. */
  function PageNumbers(n: int): (ps: seq<int>)
    ensures |ps| == if n < 0 then 0 else n
    ensures forall i :: 0 <= i < |ps| ==> ps[i] == i + 1
    decreases n
  {
    if n <= 0 then [] else PageNumbers(n - 1) + [n]
  }

  /**
   * The state of the search loop before page `page`: pages up to `page - 1`
   * are requested and their records collected, and the pages still to be
   * requested are those `RequestedFrom(pages, page, limit)` names.
   */
  predicate SearchState(pages: int -> seq<PostRecord>, limit: int, page: int,
                        results: seq<PostRecord>, fetched: seq<int>)
  {
    && 1 <= page && (page <= limit + 1 || page == 1)
    && PagesRequested(pages, limit) == RequestedFrom(pages, page, limit)
    && results == ConcatPages(pages, page - 1)
    && fetched == PageNumbers(page - 1)
  }

  /** The search has requested every page it will: its page numbers and records are final. */
  predicate SearchDone(pages: int -> seq<PostRecord>, limit: int, results: seq<PostRecord>, fetched: seq<int>) {
    && fetched == PageNumbers(PagesRequested(pages, limit))
    && results == ConcatPages(pages, PagesRequested(pages, limit))
  }

  /** The search loop starts at page 1 with nothing requested. */
  lemma SearchStart(pages: int -> seq<PostRecord>, limit: int)
    ensures SearchState(pages, limit, 1, [], [])
  {
  }

  /**
   * One round of the search loop at page `page`: a page with records moves
   * the loop on with its records appended, an empty page ends the search
   * with that page as the last one requested.
   */
  lemma SearchStep(pages: int -> seq<PostRecord>, page: int, limit: int, results: seq<PostRecord>, fetched: seq<int>,
                   pageResults: seq<PostRecord>)
    requires SearchState(pages, limit, page, results, fetched) && page <= limit
    requires pageResults == pages(page)
    ensures pageResults != [] ==> SearchState(pages, limit, page + 1, results + pageResults, fetched + [page])
    ensures pageResults == [] ==> SearchDone(pages, limit, results, fetched + [page])
  {
    assert ConcatPages(pages, page) == ConcatPages(pages, page - 1) + pages(page);
    assert results + [] == results;
  }

  /** `SearchStep` for the page `_scrape_search_page` returns from `site`. */
  lemma SearchRound(cfg: Config, site: SearchSite, page: int, limit: int, results: seq<PostRecord>, fetched: seq<int>,
                    pageResults: seq<PostRecord>)
    requires SearchState(PageFn(cfg, site), limit, page, results, fetched) && page <= limit
    requires pageResults == PageResults(cfg, site, page)
    ensures pageResults != [] ==> SearchState(PageFn(cfg, site), limit, page + 1, results + pageResults, fetched + [page])
    ensures pageResults == [] ==> SearchDone(PageFn(cfg, site), limit, results, fetched + [page])
  {
    SearchStep(PageFn(cfg, site), page, limit, results, fetched, pageResults);
  }

  /** The search loop ends past the limit with every page up to the limit requested. */
  lemma SearchEnd(pages: int -> seq<PostRecord>, page: int, limit: int, results: seq<PostRecord>, fetched: seq<int>)
    requires SearchState(pages, limit, page, results, fetched) && page > limit
    ensures SearchDone(pages, limit, results, fetched)
  {
    assert PagesRequested(pages, limit) == page - 1;
  }

  /** A finished search has requested pages 1 to `PagesRequested` and returns `SearchResults`. */
  lemma SearchDoneResults(cfg: Config, site: SearchSite, maxPages: Option<int>, results: seq<PostRecord>, fetched: seq<int>)
    requires SearchDone(PageFn(cfg, site), EffectiveLimit(cfg, maxPages), results, fetched)
    ensures |fetched| == PagesRequested(PageFn(cfg, site), EffectiveLimit(cfg, maxPages))
    ensures forall i :: 0 <= i < |fetched| ==> fetched[i] == i + 1
    ensures results == SearchResults(cfg, site, maxPages)
  {
  }

  /**
   * `search_audiobookbay`: requests pages 1, 2, ... in order, appends each
   * page's records, and stops after the first page without records or at
   * the page limit. `fetched` lists the page numbers requested, in order.
   */
  method SearchAudiobookbay(cfg: Config, site: SearchSite, maxPages: Option<int>)
    returns (results: seq<PostRecord>, fetched: seq<int>)
    ensures |fetched| == PagesRequested(PageFn(cfg, site), EffectiveLimit(cfg, maxPages))
    ensures forall i :: 0 <= i < |fetched| ==> fetched[i] == i + 1
    ensures results == SearchResults(cfg, site, maxPages)
  {
    var limit := match maxPages case None => cfg.pageLimit case Some(n) => n;
    assert limit == EffectiveLimit(cfg, maxPages);
    results, fetched := [], [];
    var page := 1;
    ghost var stopped := false;
    SearchStart(PageFn(cfg, site), limit);
    while page <= limit
      invariant SearchState(PageFn(cfg, site), limit, page, results, fetched)
    {
      var pageResults := ScrapeSearchPage(cfg, site, page);
      SearchRound(cfg, site, page, limit, results, fetched, pageResults);
      fetched := fetched + [page];
      if pageResults == [] {
        stopped := true;
        break;
      }
      results := results + pageResults;
      page := page + 1;
    }
    if !stopped {
      SearchEnd(PageFn(cfg, site), page, limit, results, fetched);
    }
    SearchDoneResults(cfg, site, maxPages, results, fetched);
  }

  // ===========================================================================
  // Details page: info hash and trackers
  // ===========================================================================

  /** A cell whose `.string` contains "Info Hash", in any case. */
  predicate IsInfoHashLabel(c: Cell) {
    c.str.Some? && ContainsIgnoringCase(c.str.value, "Info Hash")
  }

  /** The index of the first label cell of a row. */
  function LabelIndex(row: seq<Cell>): (j: Option<nat>)
    ensures j.Some? ==> j.value < |row| && IsInfoHashLabel(row[j.value])
    ensures j.Some? ==> forall k :: 0 <= k < j.value ==> !IsInfoHashLabel(row[k])
    ensures j.None? ==> forall k :: 0 <= k < |row| ==> !IsInfoHashLabel(row[k])
  {
    if row == [] then None
    else if IsInfoHashLabel(row[0]) then Some(0)
    else match LabelIndex(row[1..])
      case None => None
      case Some(k) => Some(k + 1)
  }

  /** `_extract_info_hash` on the rows of a page. */
  function InfoHashIn(rows: seq<seq<Cell>>): (h: Option<string>)
    ensures h.Some? ==> h.value == [] || (!IsSpace(h.value[0]) && !IsSpace(h.value[|h.value| - 1]))
  {
    if rows == [] then None
    else match LabelIndex(rows[0])
      case Some(j) => if j + 1 < |rows[0]| then Some(Strip(rows[0][j + 1].text)) else None
      case None => InfoHashIn(rows[1..])
  }

  /** `_extract_info_hash`: the stripped text of the cell after the first label cell. */
  function ExtractInfoHash(page: DetailsPage): (h: Option<string>)
    ensures h.Some? ==> h.value == [] || (!IsSpace(h.value[0]) && !IsSpace(h.value[|h.value| - 1]))
  {
    InfoHashIn(page.rows)
  }

  /** Without a label cell there is no info hash. */
  lemma {:induction false} InfoHashNeedsLabel(rows: seq<seq<Cell>>)
    requires forall i, j :: 0 <= i < |rows| && 0 <= j < |rows[i]| ==> !IsInfoHashLabel(rows[i][j])
    ensures InfoHashIn(rows) == None
  {
    if rows != [] {
      InfoHashNeedsLabel(rows[1..]);
    }
  }

  /**
   * The info hash is read next to the first label cell in document order:
   * the stripped text of its right-hand neighbour, or nothing when the label
   * ends its row (later labels are not consulted).
   */
  lemma {:induction false} InfoHashOfFirstLabel(rows: seq<seq<Cell>>, i: nat, j: nat)
    requires i < |rows| && j < |rows[i]| && IsInfoHashLabel(rows[i][j])
    requires forall a, b :: 0 <= a < i && 0 <= b < |rows[a]| ==> !IsInfoHashLabel(rows[a][b])
    requires forall b :: 0 <= b < j ==> !IsInfoHashLabel(rows[i][b])
    ensures InfoHashIn(rows) == if j + 1 < |rows[i]| then Some(Strip(rows[i][j + 1].text)) else None
  {
    if i > 0 {
      assert LabelIndex(rows[0]).None?;
      InfoHashOfFirstLabel(rows[1..], i - 1, j);
    }
  }

  /** A cell whose `.string` contains `udp://` or `http://`, in any case. */
  predicate IsTrackerCell(c: Cell) {
    c.str.Some? && (ContainsIgnoringCase(c.str.value, "udp://") || ContainsIgnoringCase(c.str.value, "http://"))
  }

  /** The tracker a cell contributes: its stripped text, when it is a tracker cell and that text is not empty. */
  function TrackerOf(c: Cell): (t: Option<string>)
    ensures t.Some? ==> t.value != [] && !IsSpace(t.value[0]) && !IsSpace(t.value[|t.value| - 1])
  {
    if !IsTrackerCell(c) then None
    else
      var t := Strip(c.text);
      if t == [] then None else Some(t)
  }

  /** The stripped, non-empty texts of the tracker cells, in document order. */
  function TrackerTexts(cells: seq<Cell>): (ts: seq<string>)
    ensures forall t :: t in ts ==> t != [] && !IsSpace(t[0]) && !IsSpace(t[|t| - 1])
  {
    if cells == [] then []
    else
      match TrackerOf(cells[0])
      case None => TrackerTexts(cells[1..])
      case Some(t) => [t] + TrackerTexts(cells[1..])
  }


  /** A text is listed exactly when some tracker cell strips to it. */
  lemma {:induction false} TrackerTextsMembership(cells: seq<Cell>, t: string)
    ensures t in TrackerTexts(cells) <==>
      exists c :: c in cells && IsTrackerCell(c) && Strip(c.text) == t && t != []
  {
    if cells != [] {
      TrackerTextsMembership(cells[1..], t);
      if t in TrackerTexts(cells[1..]) {
        var c :| c in cells[1..] && IsTrackerCell(c) && Strip(c.text) == t && t != [];
        assert c in cells;
      }
      assert forall c :: c in cells ==> c == cells[0] || c in cells[1..];
    }
  }

  /** Tracker lookup keeps document order: the trackers of two runs of cells are the two runs' trackers. */
  lemma {:induction false} TrackerTextsAppend(a: seq<Cell>, b: seq<Cell>)
    ensures TrackerTexts(a + b) == TrackerTexts(a) + TrackerTexts(b)
  {
    if a == [] {
      assert a + b == b;
    } else {
      assert (a + b)[0] == a[0];
      assert (a + b)[1..] == a[1..] + b;
      TrackerTextsAppend(a[1..], b);
      var x, y := TrackerTexts(a[1..]), TrackerTexts(b);
      match TrackerOf(a[0]) {
        case None =>
        case Some(t) =>
          assert [t] + (x + y) == ([t] + x) + y;
      }
    }
  }


  /** `_extract_trackers`: the page's trackers, or the six defaults when it has none. */
  function ExtractTrackers(page: DetailsPage): (trackers: seq<string>)
    ensures trackers != []
    ensures TrackerTexts(Cells(page.rows)) == [] ==> trackers == DefaultTrackers
    ensures TrackerTexts(Cells(page.rows)) != [] ==> trackers == TrackerTexts(Cells(page.rows))
  {
    var found := TrackerTexts(Cells(page.rows));
    if found == [] then DefaultTrackers else found
  }

  // ===========================================================================
  // Magnet URI
  // ===========================================================================

  /** The display segment of a details URL: its last `/`-segment, or the one before a trailing `/`. */
  function DisplaySegment(url: string): (seg: string)
    ensures '/' !in seg
    ensures var end := if url != [] && url[|url| - 1] == '/' then |url| - 1 else |url|;
      && |seg| <= end && url[end - |seg|..end] == seg
      && (|seg| == end || url[end - |seg| - 1] == '/')
  {
    var parts := SplitOn(url, '/');
    if url != [] && url[|url| - 1] == '/' then
      var u := url[..|url| - 1];
      assert url == u + ['/'];
      SplitOnTrailingSeparator(u, '/');
      var seg := parts[|parts| - 2];
      assert seg == LastPart(u, '/');
      seg
    else
      LastPart(url, '/')
  }

  /**
   * The display name: the segment with every hyphen turned into a space and
   * every other character title-cased: a letter after a letter is lower
   * case, any other letter upper case. No hyphen and no `/` is left.
   */
  function DisplayName(url: string): (name: string)
    ensures var seg := DisplaySegment(url);
      && |name| == |seg|
      && (forall i :: 0 <= i < |seg| && seg[i] == '-' ==> name[i] == ' ')
      && (forall i :: 0 <= i < |seg| && seg[i] != '-' ==>
            name[i] == if i > 0 && IsAsciiLetter(seg[i - 1]) then ToLower(seg[i]) else ToUpper(seg[i]))
      && '-' !in name && '/' !in name
  {
    var seg := DisplaySegment(url);
    HyphensToTitle(seg);
    TitleFrom(ReplaceChar(seg, '-', ' '), false)
  }

  /**
   * `seg.replace('-', ' ').title()` position by position: hyphens become
   * spaces, every other character is cased by whether a letter precedes it.
   */
  lemma HyphensToTitle(seg: string)
    ensures var name := TitleFrom(ReplaceChar(seg, '-', ' '), false);
      && |name| == |seg|
      && (forall i :: 0 <= i < |seg| && seg[i] == '-' ==> name[i] == ' ')
      && (forall i :: 0 <= i < |seg| && seg[i] != '-' ==>
            name[i] == if i > 0 && IsAsciiLetter(seg[i - 1]) then ToLower(seg[i]) else ToUpper(seg[i]))
      && '-' !in name
      && ('/' !in seg ==> '/' !in name)
  {
    var spaced := ReplaceChar(seg, '-', ' ');
    var name := TitleFrom(spaced, false);
    forall i | 0 <= i < |seg|
      ensures seg[i] == '-' ==> name[i] == ' '
      ensures seg[i] != '-' ==>
        name[i] == if i > 0 && IsAsciiLetter(seg[i - 1]) then ToLower(seg[i]) else ToUpper(seg[i])
      ensures name[i] != '-' && ('/' !in seg ==> name[i] != '/')
    {
      assert seg[i] in seg;
      if i > 0 {
        assert IsAsciiLetter(spaced[i - 1]) == IsAsciiLetter(seg[i - 1]);
      }
    }
  }

  /** One `tr=` parameter per tracker, in order, each tracker percent-encoded. */
  function TrackerParams(trackers: seq<string>): (params: seq<string>)
    ensures |params| == |trackers|
    ensures forall i :: 0 <= i < |trackers| ==> params[i] == "tr=" + Quote(trackers[i])
  {
    seq(|trackers|, i requires 0 <= i < |trackers| => "tr=" + Quote(trackers[i]))
  }

  /** The `xt` parameter: the BitTorrent info hash as a URN. */
  function XtParam(infoHash: string): string {
    "xt=urn:btih:" + infoHash
  }

  /** The `dn` parameter: the percent-encoded display name. */
  function DnParam(sourceUrl: string): string {
    "dn=" + Quote(DisplayName(sourceUrl))
  }

  /** The query of the magnet link: `xt`, `dn` and the `tr` parameters, separated by `&`. */
  function MagnetQueryString(infoHash: string, trackers: seq<string>, sourceUrl: string): string {
    XtParam(infoHash) + "&" + DnParam(sourceUrl) + "&" + Join("&", TrackerParams(trackers))
  }

  /** `_build_magnet_link`. */
  function BuildMagnetLink(infoHash: string, trackers: seq<string>, sourceUrl: string): (link: string)
    ensures StartsWith(link, "magnet:?")
    ensures link[8..] == MagnetQueryString(infoHash, trackers, sourceUrl)
  {
    "magnet:?" + MagnetQueryString(infoHash, trackers, sourceUrl)
  }

  /** The query part of a magnet link, split at `&` as a magnet consumer reads it. */
  function MagnetParams(link: string): seq<string>
    requires StartsWith(link, "magnet:?")
  {
    SplitOn(link[8..], '&')
  }

  lemma XtParamFreeOfAmpersand(infoHash: string)
    requires '&' !in infoHash
    ensures '&' !in XtParam(infoHash)
  {
    var xt := XtParam(infoHash);
    assert forall k :: 0 <= k < |xt| ==> xt[k] != '&';
  }

  /** A parameter name followed by percent-encoded text holds no `&`. */
  lemma QuotedParamFreeOfAmpersand(name: string, text: string)
    requires '&' !in name
    ensures '&' !in name + Quote(text)
  {
    var q := Quote(text);
    assert forall k :: 0 <= k < |q| ==> IsQuotedChar(q[k]);
    var t := name + q;
    assert forall k :: 0 <= k < |t| ==> t[k] != '&';
  }

  lemma DnParamFreeOfAmpersand(sourceUrl: string)
    ensures '&' !in DnParam(sourceUrl)
  {
    QuotedParamFreeOfAmpersand("dn=", DisplayName(sourceUrl));
  }

  lemma TrackerParamsFreeOfAmpersand(trackers: seq<string>)
    ensures forall i :: 0 <= i < |trackers| ==> '&' !in TrackerParams(trackers)[i]
  {
    forall i | 0 <= i < |trackers| ensures '&' !in TrackerParams(trackers)[i] {
      QuotedParamFreeOfAmpersand("tr=", trackers[i]);
    }
  }

  /** A query of `&`-free parameters joined by `&` splits back into those parameters. */
  lemma QueryReadsBack(xt: string, dn: string, trs: seq<string>)
    requires '&' !in xt && '&' !in dn && trs != []
    requires forall i :: 0 <= i < |trs| ==> '&' !in trs[i]
    ensures SplitOn(xt + "&" + dn + "&" + Join("&", trs), '&') == [xt, dn] + trs
  {
    var all := [xt, dn] + trs;
    JoinFront("&", xt, dn, trs);
    forall q | q in all ensures '&' !in q {
      var i :| 0 <= i < |all| && all[i] == q;
      if i >= 2 {
        assert trs[i - 2] == q;
      }
    }
    SplitOnJoin(all, '&');
  }

  /**
   * A magnet link reads back as built: the `xt` parameter with the hash, the
   * `dn` parameter, then exactly one `tr` parameter per tracker, in order,
   * each decoding to the tracker's UTF-8 bytes. This needs an info hash
   * without `&` and at least one tracker (the lookup always yields one).
   */
  lemma MagnetLinkReadsBack(infoHash: string, trackers: seq<string>, sourceUrl: string)
    requires '&' !in infoHash && trackers != []
    ensures var params := MagnetParams(BuildMagnetLink(infoHash, trackers, sourceUrl));
      && |params| == 2 + |trackers|
      && params[0] == XtParam(infoHash)
      && params[1] == DnParam(sourceUrl)
      && forall i :: 0 <= i < |trackers| ==>
           params[2 + i] == "tr=" + Quote(trackers[i])
           && UnquoteBytes(params[2 + i][3..]) == Some(Encode(trackers[i]))
  {
    var xt, dn, trs := XtParam(infoHash), DnParam(sourceUrl), TrackerParams(trackers);
    XtParamFreeOfAmpersand(infoHash);
    DnParamFreeOfAmpersand(sourceUrl);
    TrackerParamsFreeOfAmpersand(trackers);
    QueryReadsBack(xt, dn, trs);
    TrackerParamsDecode(trackers);
    assert MagnetParams(BuildMagnetLink(infoHash, trackers, sourceUrl)) == [xt, dn] + trs;
  }

  /** The value of every `tr` parameter decodes to the tracker's UTF-8 bytes. */
  lemma TrackerParamsDecode(trackers: seq<string>)
    ensures forall i :: 0 <= i < |trackers| ==>
      |TrackerParams(trackers)[i]| >= 3 && UnquoteBytes(TrackerParams(trackers)[i][3..]) == Some(Encode(trackers[i]))
  {
    var trs := TrackerParams(trackers);
    forall i | 0 <= i < |trackers|
      ensures |trs[i]| >= 3 && UnquoteBytes(trs[i][3..]) == Some(Encode(trackers[i]))
    {
      assert trs[i][3..] == Quote(trackers[i]);
      QuoteRoundTrip(trackers[i]);
    }
  }


  /**
   * `extract_magnet_link` given the details page response: no link unless
   * the page came back with status 200 and a non-empty info hash.
   */
  function ExtractMagnetLink(detailsUrl: string, response: Fetched<DetailsPage>): (link: Option<string>)
    ensures link.Some? <==>
      response.Response? && response.status == 200
      && ExtractInfoHash(response.body).Some? && ExtractInfoHash(response.body).value != []
    ensures link.Some? ==>
      link.value == BuildMagnetLink(ExtractInfoHash(response.body).value, ExtractTrackers(response.body), detailsUrl)
  {
    match response
    case Unreachable => None
    case Response(status, page) =>
      if status != 200 then None
      else match ExtractInfoHash(page)
        case None => None
        case Some(h) => if h == [] then None else Some(BuildMagnetLink(h, ExtractTrackers(page), detailsUrl))
  }

  /**
   * A details page with a hash and no tracker cell gives a link whose
   * parameters are the hash, the display name and the six default trackers
   * in their declared order.
   */
  lemma DefaultTrackersInMagnet(detailsUrl: string, page: DetailsPage)
    requires ExtractInfoHash(page).Some? && ExtractInfoHash(page).value != []
    requires '&' !in ExtractInfoHash(page).value
    requires forall c :: c in Cells(page.rows) ==> !IsTrackerCell(c)
    ensures var link := ExtractMagnetLink(detailsUrl, Response(200, page));
      && link.Some?
      && var params := MagnetParams(link.value);
      && |params| == 8
      && params[0] == XtParam(ExtractInfoHash(page).value)
      && forall i :: 0 <= i < 6 ==> params[2 + i] == "tr=" + Quote(DefaultTrackers[i])
  {
    NoTrackerCells(Cells(page.rows));
    MagnetLinkReadsBack(ExtractInfoHash(page).value, DefaultTrackers, detailsUrl);
  }

  lemma {:induction false} NoTrackerCells(cells: seq<Cell>)
    requires forall c :: c in cells ==> !IsTrackerCell(c)
    ensures TrackerTexts(cells) == []
  {
    if cells != [] {
      assert cells[0] in cells;
      forall c | c in cells[1..] ensures !IsTrackerCell(c) {
        assert c in cells;
      }
      NoTrackerCells(cells[1..]);
    }
  }

  // ===========================================================================
  // Utilities
  // ===========================================================================

  /** The characters removed from titles: `<>:"/\|?*`. */
  const ForbiddenChars: set<char> := {'<', '>', ':', '"', '/', '\\', '|', '?', '*'}

  /** The longest sanitized title. */
  const MaxTitleLength := 200

  /** What `sanitize_title` promises of a directory name. */
  predicate IsSafeDirName(s: string) {
    && s != []
    && |s| <= MaxTitleLength
    && (forall c :: c in s ==> c !in ForbiddenChars)
    && IsCollapsed(s)
  }

  /**
   * `sanitize_title`: drops the forbidden characters, collapses whitespace,
   * cuts to 200 characters and falls back to "Unknown" when nothing is left.
   */
  function SanitizeTitle(title: string): (r: string)
    ensures r != []
    ensures title == [] ==> r == "Unknown"
    ensures forall c :: c in r ==> c in "Unknown " || (c in title && c !in ForbiddenChars)
  {
    if title == [] then "Unknown"
    else
      var collapsed := Collapse(RemoveChars(title, ForbiddenChars));
      var cut := if |collapsed| > MaxTitleLength then Strip(collapsed[..MaxTitleLength]) else collapsed;
      assert forall c :: c in cut ==> c in collapsed by {
        if |collapsed| > MaxTitleLength {
          StripOnlyRemoves(collapsed[..MaxTitleLength]);
          assert forall c :: c in collapsed[..MaxTitleLength] ==> c in collapsed;
        }
      }
      if cut == [] then "Unknown" else cut
  }

  /**
   * Every sanitized title is a safe directory name: non-empty, at most 200
   * characters, free of `<>:"/\|?*`, single-spaced and without whitespace
   * at either end.
   */
  lemma SanitizeTitleIsSafe(title: string)
    ensures IsSafeDirName(SanitizeTitle(title))
  {
    if title == [] || SanitizeTitle(title) == "Unknown" {
      UnknownIsSafe();
    } else {
      var collapsed := Collapse(RemoveChars(title, ForbiddenChars));
      assert forall c :: c in collapsed ==> c !in ForbiddenChars;
      if |collapsed| > MaxTitleLength {
        CollapsedPrefixStripped(collapsed, MaxTitleLength);
      }
    }
  }

  lemma UnknownIsSafe()
    ensures IsSafeDirName("Unknown")
  {
    var u := "Unknown";
    assert forall i :: 0 <= i < |u| ==> !IsSpace(u[i]) && u[i] !in ForbiddenChars;
  }

  /** Cutting collapsed text and stripping the cut leaves collapsed text. */
  lemma CollapsedPrefixStripped(s: string, k: nat)
    requires IsCollapsed(s)
    ensures k <= |s| ==> IsCollapsed(Strip(s[..k])) && forall c :: c in Strip(s[..k]) ==> c in s
  {
    if k <= |s| {
      var p := s[..k];
      if p != [] {
        assert !IsSpace(p[0]) by {
          assert p[0] == s[0];
        }
      }
      var r := Strip(p);
      StripUnpaddedStart(p);
      forall i | 0 <= i < |r| && IsSpace(r[i])
        ensures r[i] == ' ' && 0 < i < |r| - 1 && !IsSpace(r[i - 1]) && !IsSpace(r[i + 1])
      {
        assert r[i] == s[i];
        assert i + 1 < |s|;
        assert i != |r| - 1;
        assert r[i + 1] == s[i + 1] && r[i - 1] == s[i - 1];
      }
      forall c | c in r ensures c in s {
        var i :| 0 <= i < |r| && r[i] == c;
        assert s[i] == c;
      }
    }
  }

  /** Sanitizing a sanitized title changes nothing. */
  lemma SanitizeTitleIdempotent(title: string)
    ensures SanitizeTitle(SanitizeTitle(title)) == SanitizeTitle(title)
  {
    SanitizeTitleIsSafe(title);
    SanitizeTitleKeepsSafeNames(SanitizeTitle(title));
  }

  /** Every title that is already a safe directory name is kept as it is. */
  lemma SanitizeTitleKeepsSafeNames(title: string)
    requires IsSafeDirName(title)
    ensures SanitizeTitle(title) == title
  {
    assert RemoveChars(title, ForbiddenChars) == title;
    CollapseFixesCollapsed(title);
  }

  /**
   * What sanitizing keeps: "Unknown" only when nothing but forbidden
   * characters and whitespace was given; otherwise the collapsed text without
   * forbidden characters, whole when it fits in 200 characters and cut at the
   * end otherwise.
   */
  lemma SanitizeTitleKeepsText(title: string)
    ensures var collapsed := Collapse(RemoveChars(title, ForbiddenChars));
      var r := SanitizeTitle(title);
      && (collapsed == [] ==> r == "Unknown")
      && (collapsed != [] ==> |r| <= |collapsed| && collapsed[..|r|] == r)
      && (collapsed != [] && |collapsed| <= MaxTitleLength ==> r == collapsed)
  {
    var collapsed := Collapse(RemoveChars(title, ForbiddenChars));
    if title != [] && |collapsed| > MaxTitleLength {
      var p := collapsed[..MaxTitleLength];
      assert p[0] == collapsed[0];
      StripUnpaddedStart(p);
      PaddedStartSurvives(p);
    }
  }

  /** A string that starts with a non-space character does not strip to nothing. */
  lemma PaddedStartSurvives(p: string)
    requires p != [] && !IsSpace(p[0])
    ensures Strip(p) != []
  {
    var k := StripOffset(p);
  }

  /**
   * Sanitizing keeps every character that is neither forbidden nor
   * whitespace, in order: all of them when the collapsed text fits in 200
   * characters, and a leading part of them when it is cut.
   */
  lemma SanitizeTitleKeepsCharacters(title: string)
    ensures var removed := RemoveChars(title, ForbiddenChars);
      var collapsed := Collapse(removed);
      var kept := RemoveChars(SanitizeTitle(title), SpaceChars);
      var all := RemoveChars(removed, SpaceChars);
      && (collapsed != [] ==> |kept| <= |all| && all[..|kept|] == kept)
      && (collapsed != [] && |collapsed| <= MaxTitleLength ==> kept == all)
  {
    var removed := RemoveChars(title, ForbiddenChars);
    var collapsed := Collapse(removed);
    SanitizeTitleKeepsText(title);
    if collapsed != [] {
      CollapseKeepsText(removed);
      PrefixKeepsLeadingText(collapsed, SanitizeTitle(title));
    }
  }

  /** The non-whitespace text of a prefix is a prefix of the non-whitespace text. */
  lemma PrefixKeepsLeadingText(s: string, p: string)
    requires |p| <= |s| && s[..|p|] == p
    ensures var kept, all := RemoveChars(p, SpaceChars), RemoveChars(s, SpaceChars);
      |kept| <= |all| && all[..|kept|] == kept
  {
    assert s == p + s[|p|..];
    RemoveCharsAppend(p, s[|p|..], SpaceChars);
  }

  /** `validate_audiobookbay_url`: non-empty, mentions the host, starts with `http`. */
  predicate ValidateUrl(cfg: Config, url: string)
    ensures ValidateUrl(cfg, url) ==> |url| >= 4 && url[..4] == "http" && |url| >= |cfg.hostname|
    ensures url == [] ==> !ValidateUrl(cfg, url)
  {
    url != [] && Contains(url, cfg.hostname) && StartsWith(url, "http")
  }

  /** Every link the search emits passes the URL check. */
  lemma ExtractedLinksValidate(cfg: Config, posts: seq<Post>)
    ensures forall r :: r in ExtractPosts(cfg.hostname, posts) ==> ValidateUrl(cfg, r.link)
  {
    forall r | r in ExtractPosts(cfg.hostname, posts) ensures ValidateUrl(cfg, r.link) {
      var host := cfg.hostname;
      assert IsSiteRecord(host, r);
      assert r.link[8..8 + |host|] == ("https://" + host)[8..] == host;
      assert OccursAt(r.link, host, 8);
      assert r.link[..4] == "http";
    }
  }
}
