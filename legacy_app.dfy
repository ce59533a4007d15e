/**
 * The first, single-file version of the application (`app.py`): its search
 * loop, its magnet-link extraction and its title sanitiser. It differs from
 * the scraper package on several points the lemmas below make precise: an
 * empty result page does not end the search, a network error aborts the
 * whole search, the info-hash label must match exactly, trackers come from
 * `udp://` links and are not percent-encoded, and sanitising neither
 * collapses whitespace nor caps the length.
 */
module LegacyApp {
  import opened Wrappers
  import opened PyStr
  import opened Html
  import Scraper

  /** The hard-wired site prefix of every result link. */
  const SiteBase := "https://audiobookbay.lu"

  /** The placeholder cover of a post without an image. */
  const DefaultCover := "/images/default-cover.jpg"

  // ===========================================================================
  // Search
  // ===========================================================================

  /**
   * One post of a result page, or `None` where the body of the `try` raises:
   * no title anchor, an anchor without `href`, or an image without `src`.
   * The title is stripped but may be empty.
   */
  function ExtractPost(p: Post): (r: Option<Scraper.PostRecord>)
    ensures r.Some? ==> StartsWith(r.value.link, SiteBase)
  {
    match p.titleAnchor
    case None => None
    case Some(a) =>
      match a.href
      case None => None
      case Some(href) =>
        match p.image
        case None => Some(Scraper.PostRecord(Strip(a.text), SiteBase + href, DefaultCover))
        case Some(img) =>
          match img.src
          case None => None
          case Some(src) => Some(Scraper.PostRecord(Strip(a.text), SiteBase + href, src))
  }

  /**
   * A post yields a record exactly when it has a title anchor with an `href`
   * and no image or an image with a `src`; the record holds the stripped
   * title, the `href` under the site and the `src` or the placeholder.
   */
  lemma ExtractPostFields(p: Post)
    ensures ExtractPost(p).Some? <==>
      p.titleAnchor.Some? && p.titleAnchor.value.href.Some? && (p.image.None? || p.image.value.src.Some?)
    ensures ExtractPost(p).Some? ==>
      && ExtractPost(p).value.title == Strip(p.titleAnchor.value.text)
      && ExtractPost(p).value.link == SiteBase + p.titleAnchor.value.href.value
      && ExtractPost(p).value.cover == if p.image.None? then DefaultCover else p.image.value.src.value
  {
  }

  /** The records of a page's posts, skipping the posts that raise, in page order. */
  function ExtractPosts(posts: seq<Post>): (rs: seq<Scraper.PostRecord>)
    ensures |rs| <= |posts|
    ensures forall r :: r in rs ==> StartsWith(r.link, SiteBase)
  {
    if posts == [] then []
    else match ExtractPost(posts[0])
      case None => ExtractPosts(posts[1..])
      case Some(r) => [r] + ExtractPosts(posts[1..])
  }

  lemma {:induction false} ExtractPostsAppend(a: seq<Post>, b: seq<Post>)
    ensures ExtractPosts(a + b) == ExtractPosts(a) + ExtractPosts(b)
  {
    if a == [] {
      assert a + b == b;
    } else {
      assert (a + b)[0] == a[0];
      assert (a + b)[1..] == a[1..] + b;
      ExtractPostsAppend(a[1..], b);
      var x, y := ExtractPosts(a[1..]), ExtractPosts(b);
      match ExtractPost(a[0]) {
        case None =>
        case Some(r) =>
          assert [r] + (x + y) == ([r] + x) + y;
      }
    }
  }

  /** A record is listed exactly when some post of the page yields it. */
  lemma {:induction false} ExtractPostsMembership(posts: seq<Post>, r: Scraper.PostRecord)
    ensures r in ExtractPosts(posts) <==> exists p :: p in posts && ExtractPost(p) == Some(r)
  {
    if posts != [] {
      ExtractPostsMembership(posts[1..], r);
      assert forall p :: p in posts <==> p == posts[0] || p in posts[1..];
    }
  }

  /**
   * The two post filters agree on title and link wherever both keep a post.
   * The legacy one also keeps posts with a blank title or an empty `href`,
   * and drops a post whose image has no `src`, which the package keeps with
   * the placeholder cover.
   */
  lemma ExtractPostVersusPackage(p: Post)
    ensures var legacy := ExtractPost(p);
      var package := Scraper.ExtractPost(Scraper.DefaultConfig.hostname, p);
      && (legacy.Some? && package.Some? ==> legacy.value.title == package.value.title && legacy.value.link == package.value.link)
      && (package.Some? && (p.image.None? || p.image.value.src.Some?) ==> legacy.Some?)
      && (p.titleAnchor.Some? && p.titleAnchor.value.href.Some? && (p.image.None? || p.image.value.src.Some?) ==> legacy.Some?)
      && (legacy.Some? && (legacy.value.title == [] || p.titleAnchor.value.href == Some("")) ==> package.None?)
      && (legacy.Some? && legacy.value.title != [] && p.titleAnchor.value.href != Some("") ==> package.Some?)
      && (p.image.Some? && p.image.value.src.None? ==> legacy.None?)
  {
    match p.titleAnchor {
      case None =>
      case Some(a) =>
        var host := Scraper.DefaultConfig.hostname;
        assert "https://" + host == SiteBase;
        match a.href {
          case None =>
          case Some(href) =>
            if Strip(a.text) != [] && href != [] {
              assert Scraper.ExtractPost(host, p).Some?;
              assert Scraper.ExtractPost(host, p).value.link == SiteBase + href;
            }
        }
    }
  }

  /** `Ok(acc + rest)` for a successful rest of the search; a failure stays a failure. */
  function Prepend(acc: seq<Scraper.PostRecord>, rest: Result<seq<Scraper.PostRecord>, int>): Result<seq<Scraper.PostRecord>, int> {
    match rest
    case Ok(rs) => Ok(acc + rs)
    case Err(page) => Err(page)
  }

  /**
   * The search from page `page` on: a page that cannot be fetched makes the
   * whole search fail with its number (the exception is not caught), a
   * non-200 status ends it, any other page, empty or not, adds its posts.
   */
  function PagesFrom(site: SearchSite, page: int, maxPages: int): (r: Result<seq<Scraper.PostRecord>, int>)
    ensures r.Err? ==> page <= r.error <= maxPages && site(r.error).Unreachable?
    ensures r.Ok? ==> forall x :: x in r.value ==> StartsWith(x.link, SiteBase)
    decreases maxPages - page + 1
  {
    if page > maxPages then Ok([])
    else match site(page)
      case Unreachable => Err(page)
      case Response(status, posts) =>
        if status != 200 then Ok([])
        else Prepend(ExtractPosts(posts), PagesFrom(site, page + 1, maxPages))
  }

  /** One step of the search: a 200 page moves its records into the accumulated results. */
  lemma PrependStep(site: SearchSite, page: int, maxPages: int, results: seq<Scraper.PostRecord>)
    requires page <= maxPages && site(page).Response? && site(page).status == 200
    ensures Prepend(results, PagesFrom(site, page, maxPages)) ==
      Prepend(results + ExtractPosts(site(page).body), PagesFrom(site, page + 1, maxPages))
  {
    match PagesFrom(site, page + 1, maxPages) {
      case Err(_) =>
      case Ok(rest) =>
        var here := ExtractPosts(site(page).body);
        assert results + (here + rest) == (results + here) + rest;
    }
  }

  /** Where the search stops, the results are what has been accumulated. */
  lemma PrependDone(site: SearchSite, page: int, maxPages: int, results: seq<Scraper.PostRecord>)
    requires page > maxPages || (site(page).Response? && site(page).status != 200)
    ensures Prepend(results, PagesFrom(site, page, maxPages)) == Ok(results)
  {
    assert results + [] == results;
  }

  /** The default of `max_pages`. */
  const DefaultMaxPages := 5

  /**
   * `search_audiobookbay(query, max_pages=5)`: fetches pages 1 to
   * `max_pages` in order and collects the records of their posts. `None`
   * stands for a call that leaves `max_pages` at its default, as the search
   * route does.
   */
  method SearchAudiobookbay(site: SearchSite, maxPagesArg: Option<int>) returns (r: Result<seq<Scraper.PostRecord>, int>)
    ensures maxPagesArg.None? ==> r == PagesFrom(site, 1, DefaultMaxPages)
    ensures maxPagesArg.Some? ==> r == PagesFrom(site, 1, maxPagesArg.value)
  {
    var maxPages := if maxPagesArg.Some? then maxPagesArg.value else DefaultMaxPages;
    var results: seq<Scraper.PostRecord> := [];
    var page := 1;
    PrependNothing(PagesFrom(site, 1, maxPages));
    while page <= maxPages
      invariant 1 <= page
      invariant PagesFrom(site, 1, maxPages) == Prepend(results, PagesFrom(site, page, maxPages))
      decreases maxPages - page + 1
    {
      var response := site(page);
      if response.Unreachable? {
        return Err(page);
      }
      if response.status != 200 {
        PrependDone(site, page, maxPages, results);
        return Ok(results);
      }
      PrependStep(site, page, maxPages, results);
      results := AppendPagePosts(results, response.body);
      page := page + 1;
    }
    PrependDone(site, page, maxPages, results);
    return Ok(results);
  }

  lemma PrependNothing(rest: Result<seq<Scraper.PostRecord>, int>)
    ensures Prepend([], rest) == rest
  {
    if rest.Ok? {
      assert [] + rest.value == rest.value;
    }
  }

  /**
   * The inner `for post in soup.select('.post')` loop of the search: appends
   * the record of every post that yields one, skipping the others.
   */
  method AppendPagePosts(results: seq<Scraper.PostRecord>, posts: seq<Post>) returns (out: seq<Scraper.PostRecord>)
    ensures out == results + ExtractPosts(posts)
  {
    out := results;
    var j := 0;
    while j < |posts|
      invariant 0 <= j <= |posts|
      invariant out == results + ExtractPosts(posts[..j])
    {
      var record := ExtractPost(posts[j]);
      ExtractPostsAppend(posts[..j], [posts[j]]);
      assert posts[..j + 1] == posts[..j] + [posts[j]];
      if record.Some? {
        out := out + [record.value];
      }
      j := j + 1;
    }
    assert posts[..j] == posts;
  }

  /** The records of pages `from` to `maxPages` when every one of them answers 200. */
  function AllPages(site: SearchSite, from: int, maxPages: int): seq<Scraper.PostRecord>
    requires forall q :: from <= q <= maxPages ==> site(q).Response? && site(q).status == 200
    decreases maxPages - from + 1
  {
    if from > maxPages then [] else ExtractPosts(site(from).body) + AllPages(site, from + 1, maxPages)
  }

  /** When every page answers 200 the search reads all of them: empty pages do not end it. */
  lemma {:induction false} ReadsEveryPage(site: SearchSite, from: int, maxPages: int)
    requires forall q :: from <= q <= maxPages ==> site(q).Response? && site(q).status == 200
    ensures PagesFrom(site, from, maxPages) == Ok(AllPages(site, from, maxPages))
    decreases maxPages - from + 1
  {
    if from <= maxPages {
      ReadsEveryPage(site, from + 1, maxPages);
    }
  }

  /** Pages after the first non-200 answer are never looked at. */
  lemma {:induction false} StopsAtFirstFailure(site: SearchSite, other: SearchSite, from: int, stop: int, maxPages: int)
    requires from <= stop && site(stop).Response? && site(stop).status != 200
    requires forall q :: from <= q <= stop ==> other(q) == site(q)
    ensures PagesFrom(site, from, maxPages) == PagesFrom(other, from, maxPages)
    decreases stop - from
  {
    if from <= maxPages && from < stop {
      StopsAtFirstFailure(site, other, from + 1, stop, maxPages);
    }
  }

  /** A page that cannot be reached, after pages that all answered 200, fails the whole search and loses what was found. */
  lemma {:induction false} NetworkErrorFailsSearch(site: SearchSite, from: int, stop: int, maxPages: int)
    requires from <= stop <= maxPages && site(stop).Unreachable?
    requires forall q :: from <= q < stop ==> site(q).Response? && site(q).status == 200
    ensures PagesFrom(site, from, maxPages) == Err(stop)
    decreases stop - from
  {
    if from < stop {
      NetworkErrorFailsSearch(site, from + 1, stop, maxPages);
    }
  }

  // ===========================================================================
  // Magnet link
  // ===========================================================================

  /** The label cell `find('td', text='Info Hash:')` looks for: its string must match exactly. */
  predicate IsLabel(c: Cell) {
    c.str == Some("Info Hash:")
  }

  /** The position of the first label cell of a row. */
  function LabelIndex(row: seq<Cell>): (j: Option<nat>)
    ensures j.Some? ==> j.value < |row| && IsLabel(row[j.value])
    ensures j.Some? ==> forall k :: 0 <= k < j.value ==> !IsLabel(row[k])
    ensures j.None? ==> forall k :: 0 <= k < |row| ==> !IsLabel(row[k])
  {
    if row == [] then None
    else if IsLabel(row[0]) then Some(0)
    else match LabelIndex(row[1..])
      case None => None
      case Some(k) => Some(k + 1)
  }

  /** What the info-hash lookup finds: no label, a label without a next cell (which raises), or the hash text. */
  datatype HashLookup = NoLabel | NoSibling | HashText(text: string)

  /** The stripped text of the cell after the first label cell. */
  function InfoHashIn(rows: seq<seq<Cell>>): HashLookup {
    if rows == [] then NoLabel
    else match LabelIndex(rows[0])
      case Some(j) => if j + 1 < |rows[0]| then HashText(Strip(rows[0][j + 1].text)) else NoSibling
      case None => InfoHashIn(rows[1..])
  }

  /** The lookup finds no label exactly when no cell of the page has the string `Info Hash:`. */
  lemma {:induction false} InfoHashNeedsExactLabel(rows: seq<seq<Cell>>)
    ensures InfoHashIn(rows) == NoLabel <==>
      forall i, j :: 0 <= i < |rows| && 0 <= j < |rows[i]| ==> !IsLabel(rows[i][j])
  {
    if rows != [] {
      InfoHashNeedsExactLabel(rows[1..]);
      assert forall i :: 1 <= i < |rows| ==> rows[i] == rows[1..][i - 1];
      match LabelIndex(rows[0]) {
        case Some(j) =>
          assert IsLabel(rows[0][j]);
        case None =>
      }
    }
  }

  /** `href^="udp://"`. */
  predicate IsUdpLink(l: Link) {
    l.href.Some? && StartsWith(l.href.value, "udp://")
  }

  /** The stripped texts of the `udp://` links among `links`, empty ones included. */
  function LinkTrackers(links: seq<Link>): seq<string> {
    if links == [] then []
    else if IsUdpLink(links[0]) then [Strip(links[0].text)] + LinkTrackers(links[1..])
    else LinkTrackers(links[1..])
  }

  /** `td a[href^="udp://"]` over the cells, in document order. */
  function CellTrackers(cells: seq<Cell>): seq<string> {
    if cells == [] then [] else LinkTrackers(cells[0].links) + CellTrackers(cells[1..])
  }

  lemma {:induction false} LinkTrackersMembership(links: seq<Link>, t: string)
    ensures t in LinkTrackers(links) <==> exists l :: l in links && IsUdpLink(l) && Strip(l.text) == t
  {
    if links != [] {
      LinkTrackersMembership(links[1..], t);
      assert forall l :: l in links <==> l == links[0] || l in links[1..];
    }
  }

  /** A tracker is listed exactly when some `udp://` link in some cell strips to it. */
  lemma {:induction false} CellTrackersMembership(cells: seq<Cell>, t: string)
    ensures t in CellTrackers(cells) <==>
      exists c, l :: c in cells && l in c.links && IsUdpLink(l) && Strip(l.text) == t
  {
    if cells != [] {
      CellTrackersMembership(cells[1..], t);
      LinkTrackersMembership(cells[0].links, t);
      assert forall c :: c in cells <==> c == cells[0] || c in cells[1..];
    }
  }

  /** The page's trackers, or the six defaults when it has none. */
  function Trackers(page: DetailsPage): (trackers: seq<string>)
    ensures trackers != []
    ensures CellTrackers(Cells(page.rows)) == [] ==> trackers == Scraper.DefaultTrackers
    ensures CellTrackers(Cells(page.rows)) != [] ==> trackers == CellTrackers(Cells(page.rows))
  {
    var found := CellTrackers(Cells(page.rows));
    if found == [] then Scraper.DefaultTrackers else found
  }

  /** `tr=<tracker>` for every tracker, unencoded. */
  function TrackerParams(trackers: seq<string>): (ps: seq<string>)
    ensures |ps| == |trackers|
    ensures forall i :: 0 <= i < |trackers| ==> ps[i] == "tr=" + trackers[i]
  {
    seq(|trackers|, i requires 0 <= i < |trackers| => "tr=" + trackers[i])
  }

  /** The legacy magnet URI: the info hash and the trackers, with no display name and no encoding. */
  function BuildMagnetLink(infoHash: string, trackers: seq<string>): (link: string)
    ensures StartsWith(link, "magnet:?")
    ensures StartsWith(link, "magnet:?xt=urn:btih:")
    ensures StartsWith(link, "magnet:?xt=urn:btih:" + infoHash)
  {
    var link := "magnet:?" + "xt=urn:btih:" + infoHash + "&" + Join("&", TrackerParams(trackers));
    assert link[..|"magnet:?xt=urn:btih:" + infoHash|] == "magnet:?xt=urn:btih:" + infoHash;
    assert link[..|"magnet:?xt=urn:btih:"|] == "magnet:?xt=urn:btih:";
    link
  }

  /** The parameters of a magnet URI as a client splits them. */
  function MagnetParams(link: string): seq<string>
    requires |link| >= 8
  {
    SplitOn(link[8..], '&')
  }

  /**
   * When neither the hash nor any tracker holds `&`, the link splits back
   * into the hash parameter followed by one `tr=` parameter per tracker.
   */
  lemma MagnetLinkReadsBack(infoHash: string, trackers: seq<string>)
    requires '&' !in infoHash && trackers != []
    requires forall t :: t in trackers ==> '&' !in t
    ensures var params := MagnetParams(BuildMagnetLink(infoHash, trackers));
      && |params| == 1 + |trackers|
      && params[0] == "xt=urn:btih:" + infoHash
      && forall i :: 0 <= i < |trackers| ==> params[1 + i] == "tr=" + trackers[i]
  {
    var xt := "xt=urn:btih:" + infoHash;
    var ps := TrackerParams(trackers);
    var parts := [xt] + ps;
    JoinCons("&", xt, ps);
    assert BuildMagnetLink(infoHash, trackers)[8..] == Join("&", parts);
    forall p | p in parts ensures '&' !in p {
      if p != xt {
        var i :| 0 <= i < |ps| && ps[i] == p;
        assert trackers[i] in trackers;
        assert p == "tr=" + trackers[i];
      }
    }
    SplitOnJoin(parts, '&');
  }

  /**
   * A tracker holding `&` (an announce URL with a query) is cut in two: the
   * one tracker `a&b` gives three parameters, a truncated `tr=a` and a bare
   * `b`.
   */
  lemma AmpersandTrackerSplits(infoHash: string, a: string, b: string)
    requires '&' !in infoHash && '&' !in a && '&' !in b
    ensures MagnetParams(BuildMagnetLink(infoHash, [a + "&" + b])) == ["xt=urn:btih:" + infoHash, "tr=" + a, b]
  {
    var xt := "xt=urn:btih:" + infoHash;
    assert TrackerParams([a + "&" + b]) == ["tr=" + (a + "&" + b)];
    var link := BuildMagnetLink(infoHash, [a + "&" + b]);
    assert Join("&", [b]) == b;
    assert link[8..] == xt + "&" + ("tr=" + a) + "&" + Join("&", [b]);
    Scraper.QueryReadsBack(xt, "tr=" + a, [b]);
  }

  /** What `extract_magnet_link` does: return `None`, return a link, or raise. */
  datatype MagnetOutcome = NoMagnet | Magnet(link: string) | Raised

  /**
   * `extract_magnet_link`: a fetch without response or a label without a
   * value cell raises; a non-200 status or a missing label gives `None`.
   */
  function ExtractMagnetLink(response: Fetched<DetailsPage>): (m: MagnetOutcome)
    ensures response.Unreachable? ==> m.Raised?
    ensures m.Magnet? ==> response.Response? && response.status == 200 && StartsWith(m.link, "magnet:?xt=urn:btih:")
  {
    match response
    case Unreachable => Raised
    case Response(status, page) =>
      if status != 200 then NoMagnet
      else match InfoHashIn(page.rows)
        case NoLabel => NoMagnet
        case NoSibling => Raised
        case HashText(h) => Magnet(BuildMagnetLink(h, Trackers(page)))
  }

  /**
   * A link is produced exactly for a 200 page with an exact label and a value
   * cell after it, even an empty one; it carries that hash and the page's
   * trackers, or the defaults.
   */
  lemma ExtractMagnetLinkOutcome(response: Fetched<DetailsPage>)
    ensures ExtractMagnetLink(response).Magnet? <==>
      response.Response? && response.status == 200 && InfoHashIn(response.body.rows).HashText?
    ensures ExtractMagnetLink(response).Raised? <==>
      response.Unreachable? || (response.status == 200 && InfoHashIn(response.body.rows) == NoSibling)
    ensures ExtractMagnetLink(response).Magnet? ==>
      ExtractMagnetLink(response).link ==
        BuildMagnetLink(InfoHashIn(response.body.rows).text, Trackers(response.body))
  {
  }

  /**
   * A page without `udp://` links gets the six default trackers, in order:
   * the link has seven parameters when the hash holds no `&`.
   */
  lemma DefaultTrackersInMagnet(page: DetailsPage)
    requires InfoHashIn(page.rows).HashText? && '&' !in InfoHashIn(page.rows).text
    requires forall c, l :: c in Cells(page.rows) && l in c.links ==> !IsUdpLink(l)
    ensures var outcome := ExtractMagnetLink(Response(200, page));
      && outcome.Magnet?
      && var params := MagnetParams(outcome.link);
      && |params| == 7
      && forall i :: 0 <= i < 6 ==> params[1 + i] == "tr=" + Scraper.DefaultTrackers[i]
  {
    NoUdpLinks(Cells(page.rows));
    DefaultTrackersHaveNoAmpersand();
    MagnetLinkReadsBack(InfoHashIn(page.rows).text, Scraper.DefaultTrackers);
  }

  lemma {:induction false} NoUdpLinks(cells: seq<Cell>)
    requires forall c, l :: c in cells && l in c.links ==> !IsUdpLink(l)
    ensures CellTrackers(cells) == []
  {
    if cells != [] {
      assert cells[0] in cells;
      NoUdpLinksInCell(cells[0].links);
      NoUdpLinks(cells[1..]);
    }
  }

  lemma {:induction false} NoUdpLinksInCell(links: seq<Link>)
    requires forall l :: l in links ==> !IsUdpLink(l)
    ensures LinkTrackers(links) == []
  {
    if links != [] {
      assert links[0] in links;
      NoUdpLinksInCell(links[1..]);
    }
  }

  lemma DefaultTrackersHaveNoAmpersand()
    ensures forall t :: t in Scraper.DefaultTrackers ==> '&' !in t
  {
    FirstDefaultTrackersHaveNoAmpersand();
    LastDefaultTrackersHaveNoAmpersand();
  }

  lemma FirstDefaultTrackersHaveNoAmpersand()
    ensures '&' !in Scraper.DefaultTrackers[0] && '&' !in Scraper.DefaultTrackers[1] && '&' !in Scraper.DefaultTrackers[2]
  {
  }

  lemma LastDefaultTrackersHaveNoAmpersand()
    ensures '&' !in Scraper.DefaultTrackers[3] && '&' !in Scraper.DefaultTrackers[4] && '&' !in Scraper.DefaultTrackers[5]
  {
  }

  // ===========================================================================
  // Titles
  // ===========================================================================

  /** `sanitize_title`: drops `<>:"/\|?*` and strips the ends; nothing else. */
  function SanitizeTitle(title: string): (r: string)
    ensures forall c :: c in r ==> c !in Scraper.ForbiddenChars && c in title
    ensures r == [] || (!IsSpace(r[0]) && !IsSpace(r[|r| - 1]))
    ensures title == [] ==> r == []
  {
    var removed := RemoveChars(title, Scraper.ForbiddenChars);
    StripFacts(removed);
    Strip(removed)
  }

  /**
   * What sanitising keeps: the title without `<>:"/\|?*`, less only the
   * whitespace at either end of it.
   */
  lemma SanitizeTitleCutsOnlySpace(title: string) returns (k: nat)
    ensures PaddedAt(RemoveChars(title, Scraper.ForbiddenChars), k, SanitizeTitle(title))
  {
    k := StripOffset(RemoveChars(title, Scraper.ForbiddenChars));
  }

  /**
   * A title with no forbidden character and no surrounding whitespace comes
   * back unchanged, however long it is and however it is spaced inside.
   */
  lemma SanitizeTitleKeepsCleanTitles(title: string)
    requires forall i :: 0 <= i < |title| ==> title[i] !in Scraper.ForbiddenChars
    requires title == [] || (!IsSpace(title[0]) && !IsSpace(title[|title| - 1]))
    ensures SanitizeTitle(title) == title
  {
    StripFacts(title);
  }

  /** Sanitising twice is sanitising once. */
  lemma SanitizeTitleIdempotent(title: string)
    ensures SanitizeTitle(SanitizeTitle(title)) == SanitizeTitle(title)
  {
    var once := SanitizeTitle(title);
    assert RemoveChars(once, Scraper.ForbiddenChars) == once;
    var removed := RemoveChars(title, Scraper.ForbiddenChars);
    StripFacts(removed);
  }

  /**
   * On a title whose legacy form is already non-empty, single-spaced and at
   * most 200 characters long, the package's sanitiser gives the same result;
   * elsewhere the package also collapses, cuts and replaces empty results.
   */
  lemma AgreesWithPackageOnTidyTitles(title: string)
    requires SanitizeTitle(title) != [] && IsCollapsed(SanitizeTitle(title))
    requires |SanitizeTitle(title)| <= Scraper.MaxTitleLength
    ensures Scraper.SanitizeTitle(title) == SanitizeTitle(title)
  {
    var removed := RemoveChars(title, Scraper.ForbiddenChars);
    CollapseIgnoresStrip(removed);
    CollapseFixesCollapsed(Strip(removed));
  }
}
