/**
 * The Torznab layer of `app/api/torznab_api.py`: API-key check, the `t=`
 * dispatch with its error codes, the result limit and the mapping of scraped
 * posts to feed items. XML rendering, the Flask request object, GUIDs and
 * publication dates are not modelled; a response is the value the XML would
 * be rendered from.
 */
module Torznab {
  import opened Wrappers
  import opened PyStr
  import opened Html
  import opened Scraper

  /** `TORZNAB_API_KEY` and the scraper configuration the search runs with. */
  datatype TorznabConfig = TorznabConfig(apiKey: string, scraper: Config)

  /** The configuration when no variable is set. */
  const DefaultTorznabConfig := TorznabConfig("audiobookbay-automated", DefaultConfig)

  /** The number of result pages the Torznab search asks the scraper for. */
  const TorznabPages := 3

  /** Results returned when the request names no limit, and the cap on an explicit one. */
  const DefaultLimit := 20
  const MaxLimit := 100

  /** One feed item: the fields of the result dictionary that do not depend on the clock or on `hash`. */
  datatype TorznabItem = TorznabItem(
    title: string, link: string, comments: string, category: string, size: string, description: string)

  /** The query-string parameters the endpoint reads; `limit` is already converted by `int`. */
  datatype ApiRequest = ApiRequest(apikey: Option<string>, t: Option<string>, q: Option<string>, limit: Option<int>)

  /** What the endpoint answers: the capabilities document, a search feed, or a Torznab error. */
  datatype ApiResponse = Caps | SearchFeed(items: seq<TorznabItem>) | Error(code: int, description: string)

  /** `request.args.get(name, '')`. */
  function ArgOrEmpty(arg: Option<string>): string {
    match arg
    case None => ""
    case Some(v) => v
  }

  /** `validate_api_key`: the key must equal the configured one exactly. */
  predicate ValidateApiKey(cfg: TorznabConfig, provided: string): (ok: bool)
    ensures provided == cfg.apiKey ==> ok
    ensures |provided| != |cfg.apiKey| ==> !ok
    ensures forall i :: 0 <= i < |provided| && i < |cfg.apiKey| && provided[i] != cfg.apiKey[i] ==> !ok
  {
    provided == cfg.apiKey
  }

  /** `min(int(limit), 100)` with 20 for a missing limit. */
  function RequestLimit(limit: Option<int>): (n: int)
    ensures n <= MaxLimit
    ensures limit.None? ==> n == DefaultLimit
    ensures limit.Some? && limit.value <= MaxLimit ==> n == limit.value
    ensures limit.Some? && limit.value >= MaxLimit ==> n == MaxLimit
  {
    match limit
    case None => DefaultLimit
    case Some(l) => if l < MaxLimit then l else MaxLimit
  }

  /** Python's `s[:limit]`: a prefix, counted from the end when `limit` is negative. */
  function PyPrefix<T>(s: seq<T>, limit: int): (r: seq<T>)
    ensures |r| <= |s| && r == s[..|r|]
    ensures limit >= 0 ==> |r| == if limit < |s| then limit else |s|
    ensures limit < 0 ==> |r| == if |s| + limit > 0 then |s| + limit else 0
  {
    if limit >= 0 then (if limit < |s| then s[..limit] else s)
    else if |s| + limit > 0 then s[..|s| + limit]
    else []
  }

  /** The feed item for one scraped post. */
  function ToTorznabItem(r: PostRecord): TorznabItem {
    TorznabItem(r.title, r.link, r.link, "Audiobooks", "0", r.title)
  }

  /** The feed items for the scraped posts, in order. */
  function TorznabItems(rs: seq<PostRecord>): (items: seq<TorznabItem>)
    ensures |items| == |rs|
    ensures forall i :: 0 <= i < |rs| ==> items[i] == ToTorznabItem(rs[i])
  {
    seq(|rs|, i requires 0 <= i < |rs| => ToTorznabItem(rs[i]))
  }

  /** `search_audiobookbay_for_torznab(query, limit)` as a value: the first `limit` results of a three-page search. */
  function TorznabSearch(cfg: Config, site: SearchSite, limit: int): seq<TorznabItem> {
    TorznabItems(PyPrefix(SearchResults(cfg, site, Some(TorznabPages)), limit))
  }

  /**
   * `search_audiobookbay_for_torznab`: runs the scraper's search over at most
   * three pages and turns the first `limit` results into feed items.
   */
  method SearchForTorznab(cfg: Config, site: SearchSite, limit: int) returns (items: seq<TorznabItem>)
    ensures items == TorznabSearch(cfg, site, limit)
  {
    var results, _ := SearchAudiobookbay(cfg, site, Some(TorznabPages));
    var selected := PyPrefix(results, limit);
    items := [];
    var i := 0;
    while i < |selected|
      invariant 0 <= i <= |selected|
      invariant |items| == i
      invariant forall k :: 0 <= k < i ==> items[k] == ToTorznabItem(selected[k])
    {
      var result := selected[i];
      var item := TorznabItem(result.title, result.link, result.link, "Audiobooks", "0", result.title);
      items := items + [item];
      i := i + 1;
    }
  }

  /**
   * Every feed item is the image of the scraped post at the same position:
   * title and description are the post's title, link and comments its link.
   * A non-negative limit keeps the first `limit` posts, a negative one drops
   * that many from the end.
   */
  lemma TorznabSearchItems(cfg: Config, site: SearchSite, limit: int)
    ensures var results := SearchResults(cfg, site, Some(TorznabPages));
      var items := TorznabSearch(cfg, site, limit);
      && |items| <= |results|
      && (limit >= 0 ==> |items| == if limit < |results| then limit else |results|)
      && (limit < 0 ==> |items| == if |results| + limit > 0 then |results| + limit else 0)
      && forall i :: 0 <= i < |items| ==>
           && items[i].title == results[i].title && items[i].description == results[i].title
           && items[i].link == results[i].link && items[i].comments == results[i].link
           && items[i].category == "Audiobooks" && items[i].size == "0"
  {
    var results := SearchResults(cfg, site, Some(TorznabPages));
    var selected := PyPrefix(results, limit);
    assert forall i :: 0 <= i < |selected| ==> selected[i] == results[i];
  }

  /** What the `/torznab/api` endpoint answers; `fault` stands for an exception escaping the search. */
  function ApiOutcome(cfg: TorznabConfig, req: ApiRequest, sites: string -> SearchSite, fault: bool): (resp: ApiResponse)
    ensures resp.Caps? <==> ArgOrEmpty(req.t) == "caps"
    ensures resp.SearchFeed? <==>
      && ArgOrEmpty(req.t) == "search" && ValidateApiKey(cfg, ArgOrEmpty(req.apikey))
      && Strip(ArgOrEmpty(req.q)) != [] && !fault
  {
    var function_ := ArgOrEmpty(req.t);
    if function_ != "caps" && !ValidateApiKey(cfg, ArgOrEmpty(req.apikey)) then Error(100, "Invalid API key")
    else if function_ == "caps" then Caps
    else if function_ == "search" then
      var query := Strip(ArgOrEmpty(req.q));
      var limit := RequestLimit(req.limit);
      if query == [] then Error(200, "Missing query parameter")
      else if fault then Error(300, "Search failed")
      else SearchFeed(TorznabSearch(cfg.scraper, sites(query), limit))
    else Error(202, "Unknown or unsupported function")
  }

  /**
   * `torznab_api`: checks the key (except for `caps`), then answers `caps`,
   * runs a search, or reports an unknown function. `sites(q)` is the site as
   * seen by the search for query `q`.
   */
  method TorznabApi(cfg: TorznabConfig, req: ApiRequest, sites: string -> SearchSite, fault: bool)
    returns (resp: ApiResponse)
    ensures resp == ApiOutcome(cfg, req, sites, fault)
  {
    var apiKey := ArgOrEmpty(req.apikey);
    var function_ := ArgOrEmpty(req.t);
    if function_ != "caps" && !ValidateApiKey(cfg, apiKey) {
      return Error(100, "Invalid API key");
    }
    if function_ == "caps" {
      return Caps;
    } else if function_ == "search" {
      var query := Strip(ArgOrEmpty(req.q));
      var limit := RequestLimit(req.limit);
      if query == [] {
        return Error(200, "Missing query parameter");
      }
      if fault {
        return Error(300, "Search failed");
      }
      var results := SearchForTorznab(cfg.scraper, sites(query), limit);
      return SearchFeed(results);
    } else {
      return Error(202, "Unknown or unsupported function");
    }
  }

  /** The key is demanded of every function but `caps`: error 100 comes exactly from a wrong key on another function. */
  lemma ApiKeyRequiredExceptCaps(cfg: TorznabConfig, req: ApiRequest, sites: string -> SearchSite, fault: bool)
    ensures var resp := ApiOutcome(cfg, req, sites, fault);
      (resp.Error? && resp.code == 100) <==> (ArgOrEmpty(req.t) != "caps" && ArgOrEmpty(req.apikey) != cfg.apiKey)
    ensures ArgOrEmpty(req.t) == "caps" ==> ApiOutcome(cfg, req, sites, fault) == Caps
  {
  }

  /**
   * Every error the endpoint reports carries one of the four Torznab codes it
   * uses. With a valid key, error 200 is a search with a blank query, error
   * 300 a search whose execution raised, and error 202 any function other
   * than `caps` and `search`.
   */
  lemma ErrorCodes(cfg: TorznabConfig, req: ApiRequest, sites: string -> SearchSite, fault: bool)
    ensures var resp := ApiOutcome(cfg, req, sites, fault);
      resp.Error? ==> resp.code in {100, 200, 202, 300}
    ensures var resp := ApiOutcome(cfg, req, sites, fault);
      (resp.Error? && resp.code == 200) <==>
        ArgOrEmpty(req.t) == "search" && ValidateApiKey(cfg, ArgOrEmpty(req.apikey)) && Strip(ArgOrEmpty(req.q)) == []
    ensures var resp := ApiOutcome(cfg, req, sites, fault);
      (resp.Error? && resp.code == 300) <==>
        && ArgOrEmpty(req.t) == "search" && ValidateApiKey(cfg, ArgOrEmpty(req.apikey))
        && Strip(ArgOrEmpty(req.q)) != [] && fault
    ensures var resp := ApiOutcome(cfg, req, sites, fault);
      (resp.Error? && resp.code == 202) <==>
        ArgOrEmpty(req.t) != "caps" && ArgOrEmpty(req.t) != "search" && ValidateApiKey(cfg, ArgOrEmpty(req.apikey))
  {
  }

  /**
   * A search with a valid key: a blank query is error 200, otherwise the feed
   * holds the search for the stripped query.
   */
  lemma SearchDispatch(cfg: TorznabConfig, req: ApiRequest, sites: string -> SearchSite)
    requires ArgOrEmpty(req.t) == "search" && ArgOrEmpty(req.apikey) == cfg.apiKey
    ensures var query := Strip(ArgOrEmpty(req.q));
      && (query == [] ==> ApiOutcome(cfg, req, sites, false) == Error(200, "Missing query parameter"))
      && (query != [] ==>
            ApiOutcome(cfg, req, sites, false) == SearchFeed(TorznabSearch(cfg.scraper, sites(query), RequestLimit(req.limit))))
  {
  }

  /**
   * The feed never exceeds the requested limit, nor 100 items, nor 20 when
   * no limit is given, as long as the limit is not negative.
   */
  lemma SearchFeedBounded(cfg: TorznabConfig, req: ApiRequest, sites: string -> SearchSite, fault: bool)
    requires req.limit.None? || req.limit.value >= 0
    ensures var resp := ApiOutcome(cfg, req, sites, fault);
      resp.SearchFeed? ==> |resp.items| <= RequestLimit(req.limit) <= MaxLimit
  {
    var resp := ApiOutcome(cfg, req, sites, fault);
    if resp.SearchFeed? {
      var query := Strip(ArgOrEmpty(req.q));
      TorznabSearchItems(cfg.scraper, sites(query), RequestLimit(req.limit));
    }
  }

  /**
   * A negative limit is not capped: `limit=l` with `l < 0` returns every
   * result but the last `-l`, however many there are.
   */
  lemma NegativeLimitDropsFromEnd(cfg: TorznabConfig, req: ApiRequest, sites: string -> SearchSite, l: int)
    requires ArgOrEmpty(req.t) == "search" && ArgOrEmpty(req.apikey) == cfg.apiKey
    requires Strip(ArgOrEmpty(req.q)) != [] && req.limit == Some(l) && l < 0
    ensures var results := SearchResults(cfg.scraper, sites(Strip(ArgOrEmpty(req.q))), Some(TorznabPages));
      var resp := ApiOutcome(cfg, req, sites, false);
      resp.SearchFeed? && |resp.items| == (if |results| + l > 0 then |results| + l else 0)
  {
    TorznabSearchItems(cfg.scraper, sites(Strip(ArgOrEmpty(req.q))), l);
  }

  /** `torznab_download`: a wrong key is error 100; with the right one the download is always refused with 201. */
  function DownloadOutcome(cfg: TorznabConfig, apikey: Option<string>, guid: string): (resp: ApiResponse)
    ensures resp.Error?
    ensures resp.code == 100 <==> !ValidateApiKey(cfg, ArgOrEmpty(apikey))
    ensures resp.code == 100 || resp.code == 201
  {
    if !ValidateApiKey(cfg, ArgOrEmpty(apikey)) then Error(100, "Invalid API key")
    else Error(201, "Download not implemented - use magnet links from search results")
  }
}
