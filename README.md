# AudiobookBay downloader: search, magnet links, Torznab and download clients

A Dafny model of the core of an AudiobookBay audiobook downloader. It covers the following:

- **The scraper package.** It searches the AudiobookBay site page by page and keeps the posts of each result page. From a details page it builds a magnet link out of the info hash, the listed trackers (or six default ones) and a display name taken from the URL. It also turns titles into safe directory names.
- **The Torznab endpoint.** Indexer managers call it. It checks an API key, dispatches on the `t` parameter, caps the result count and maps scraped posts to feed items.
- **The download-client module.** It derives the client URL from the environment, picks the qBittorrent, Transmission or Deluge manager by name, and builds the save path of a new torrent. It also reports its settings, and its connection test never raises.
- **The legacy single-file application** (`app.py`). It has its own search loop, magnet construction and title sanitiser. These are modelled so they can be compared with the package.

The modules are as follows:

| module | models |
|---|---|
| `Wrappers` | `Option` and `Result` |
| `PyStr` | the Python `str` operations the code relies on: `strip()`, `split()`, `split(sep)`, `join`, `' '.join(s.split())`, ASCII `lower()`/`title()`, `str(int)` with its reading-back partner, `startswith`, `re.sub` of a character class |
| `UrlQuote` | `urllib.parse.quote` over UTF-8, with an unquoting partner |
| `Html` | the parts of a parsed page the code reads: posts, title anchors, images, table cells with their `.string`, `.text` and links, and the outcome of an HTTP request |
| `Scraper` | `app/scraper/audiobookbay_scraper.py` |
| `Torznab` | `app/api/torznab_api.py` |
| `DownloadClient` | `app/clients/download_client.py` |
| `LegacyApp` | `app.py` |

How the I/O is modelled:

- **HTTP requests are inputs.**
  - A search site is a function from page number to `Fetched<seq<Post>>`: either `Unreachable` (the request raised) or a `Response(status, body)`.
  - A details page is a `Fetched<DetailsPage>`.
  - `urlparse`, with the reading of `.port`, is a function parameter that may fail, as reading `.port` raises `ValueError` for a port that is not a number in range.
  - A download client's acceptance of a torrent and its connection probe are function parameters.
- **The environment is a map.** The module-level configuration becomes a value computed from that map.

The search loops are methods proved against specification functions:

- `Scraper.SearchAudiobookbay` against `SearchResults`, and `PagesRequested` for the pages fetched;
- `LegacyApp.SearchAudiobookbay` against `PagesFrom`;
- `Torznab.SearchForTorznab` against `TorznabSearch`;
- `Torznab.TorznabApi` against `ApiOutcome`.

The properties of these specification functions are proved as lemmas.

Some behaviour of the code worth knowing:

- **Details URLs.** A details URL is fetched as given; the code does no mirror rewriting.
- **Details page or hash missing.** An unreachable details page or a missing info hash gives `None`, with no distinct failure for either.
- **Tracker cells.** A cell is a tracker cell when its `.string` contains `udp://` or `http://` anywhere, in any case; it need not start with it.
- **Info-hash label.** Any cell string containing `Info Hash` in any case counts as the label.
- **Post records.** A result record holds only title, link and cover.

## Model

| member | source | states |
|---|---|---|
| `PyStr.Strip` | app/scraper/audiobookbay_scraper.py:120 | `strip()` never lengthens a string and leaves no whitespace at either end; what it keeps is stated by `PyStr.StripOffset` |
| `PyStr.StripFacts` | app/scraper/audiobookbay_scraper.py:222 | `strip()` is the identity exactly on strings without surrounding whitespace; it is idempotent and only removes characters |
| `PyStr.StripOffset` | app/scraper/audiobookbay_scraper.py:292 | the stripped text is a contiguous stretch of the original, and everything cut before and after it is whitespace |
| `PyStr.Words` | app/scraper/audiobookbay_scraper.py:288 | `split()` yields non-empty whitespace-free words made of the text's characters; the four lemmas below pin which words |
| `PyStr.WordsOfRun` | app/scraper/audiobookbay_scraper.py:288 | a whitespace-free text is one word, or none when empty |
| `PyStr.WordsSplitAtSpace` | app/scraper/audiobookbay_scraper.py:288 | `split()` cuts at every whitespace character: the words of `a + c + b` for a whitespace `c` are those of `a` followed by those of `b` |
| `PyStr.WordsKeepText` | app/scraper/audiobookbay_scraper.py:288 | the words put together are the text without its whitespace, in order |
| `PyStr.WordsOfJoin` | app/scraper/audiobookbay_scraper.py:288 | non-empty whitespace-free words joined by single spaces split back into the same words |
| `PyStr.SplitOnPieces` | app/scraper/audiobookbay_scraper.py:256 | no piece of `split(sep)` holds `sep`; there is more than one piece exactly when `sep` occurs |
| `PyStr.JoinSplitOn` | app/scraper/audiobookbay_scraper.py:256 | joining the pieces of `split(sep)` with `sep` gives the text back |
| `PyStr.SplitOnJoin` | app/scraper/audiobookbay_scraper.py:260 | splitting separator-free pieces joined by the separator gives the pieces back |
| `PyStr.LastPart` | app/scraper/audiobookbay_scraper.py:256 | `split(sep)[-1]` is a separator-free suffix that is the whole text or follows a separator |
| `PyStr.Collapse` | app/scraper/audiobookbay_scraper.py:288 | `' '.join(s.split())` is single-spaced with no whitespace at the ends and adds no characters but spaces |
| `PyStr.CollapseKeepsText` | app/scraper/audiobookbay_scraper.py:288 | collapsing keeps every non-whitespace character, in order: removing whitespace gives the same text before and after |
| `PyStr.CollapseFixesCollapsed` | app/scraper/audiobookbay_scraper.py:288 | collapsing already collapsed text changes nothing |
| `PyStr.CollapseIgnoresStrip` | app/scraper/audiobookbay_scraper.py:288 | collapsing is unaffected by stripping first |
| `PyStr.Lower` | app/clients/download_client.py:269 | `lower()` keeps the length and leaves no ASCII capital letter |
| `PyStr.LowerIdempotent` | app/clients/download_client.py:269 | lower-casing twice is lower-casing once, and text without capitals is left unchanged |
| `PyStr.TitleFrom` | app/scraper/audiobookbay_scraper.py:257 | `title()` upper-cases a letter that starts a word and lower-cases every other letter |
| `PyStr.TitleIdempotent` | app/scraper/audiobookbay_scraper.py:257 | title-casing twice is title-casing once |
| `PyStr.ReplaceChar` | app/scraper/audiobookbay_scraper.py:257 | after `replace(a, b)` with `a != b` no `a` is left, and every character is `b` or one of the text's other characters |
| `PyStr.RemoveChars` | app/scraper/audiobookbay_scraper.py:285 | the character-class substitution leaves none of the class, adds nothing, and is the identity exactly when no such character occurs, so a single character is kept exactly when it is outside the class |
| `PyStr.RemoveCharsAppend` | app/scraper/audiobookbay_scraper.py:285 | the substitution distributes over concatenation, so every character outside the class is kept, in order |
| `PyStr.NatToString` | app/clients/download_client.py:341 | `str(n)` is non-empty decimal digits without a leading zero |
| `PyStr.IntToStringRoundTrip` | app/clients/download_client.py:341 | `str(i)` reads back as `i` |
| `UrlQuote.Utf8` | app/scraper/audiobookbay_scraper.py:260 | one to four bytes per character; one byte exactly for ASCII, and multi-byte sequences hold no ASCII byte |
| `UrlQuote.Quote` | app/scraper/audiobookbay_scraper.py:260 | `quote` output holds only unreserved characters, `/` and `%XX` escapes, hence no `&` |
| `UrlQuote.UnquoteQuoteBytes` | app/scraper/audiobookbay_scraper.py:260 | every quoted byte string reads back to the same bytes |
| `UrlQuote.QuoteRoundTrip` | app/scraper/audiobookbay_scraper.py:263 | a quoted string reads back to exactly its UTF-8 bytes |
| `UrlQuote.QuoteKeepsSafeText` | app/scraper/audiobookbay_scraper.py:263 | text of unreserved ASCII and `/` is left unchanged |
| `Scraper.NormalizeCover` | app/scraper/audiobookbay_scraper.py:131-146 | the placeholder exactly when there is no or an empty `src`; `https:` before `//`, the site base before `/`, anything else kept |
| `Scraper.ExtractPostFields` | app/scraper/audiobookbay_scraper.py:113-152 | a record exactly for a post with a title anchor whose stripped text is non-blank and whose `href` is non-empty; it holds the stripped title, the link on the configured host and the normalised cover |
| `Scraper.CoverNormalizationIdempotent` | app/scraper/audiobookbay_scraper.py:137-142 | a normalised cover normalises to itself |
| `Scraper.ExtractPosts` | app/scraper/audiobookbay_scraper.py:113-158 | at most one record per post, each with a non-empty stripped title and a link on the configured host |
| `Scraper.ExtractPostsAppend` | app/scraper/audiobookbay_scraper.py:113-156 | extraction is post by post and keeps page order |
| `Scraper.ExtractPostsMembership` | app/scraper/audiobookbay_scraper.py:113-152 | a record is emitted exactly when some post of the page yields it |
| `Scraper.ExtractPostsKeepsWellFormed` | app/scraper/audiobookbay_scraper.py:116-127 | a page whose posts all have a non-blank title and a non-empty `href` loses none |
| `Scraper.ExtractPostsFromPage` | app/scraper/audiobookbay_scraper.py:101-158 | the loop appends exactly the records of the kept posts, in order |
| `Scraper.ScrapeSearchPage` | app/scraper/audiobookbay_scraper.py:72-99 | a network error or a non-200 status gives no records, a 200 page the records of its posts |
| `Scraper.PagesRequestedIsFirstEmptyPage` | app/scraper/audiobookbay_scraper.py:57-62 | pages 1 to n are requested, where n is the first page without records or the limit; a non-positive limit requests none |
| `Scraper.LaterPagesIgnored` | app/scraper/audiobookbay_scraper.py:57-67 | pages after the last one requested cannot affect the results |
| `Scraper.SearchAudiobookbay` | app/scraper/audiobookbay_scraper.py:40-70 | requests pages 1, 2, … in order as many as `PagesRequested` says and returns the concatenated records of those pages |
| `Scraper.InfoHashNeedsLabel` | app/scraper/audiobookbay_scraper.py:212-215 | without a label cell there is no info hash |
| `Scraper.InfoHashOfFirstLabel` | app/scraper/audiobookbay_scraper.py:212-222 | the hash is the stripped text of the cell after the first label in document order, or none when that label ends its row |
| `Scraper.ExtractInfoHash` | app/scraper/audiobookbay_scraper.py:202-222 | a hash found is stripped: empty or without whitespace at either end |
| `Scraper.TrackerTextsMembership` | app/scraper/audiobookbay_scraper.py:234-235 | a tracker is listed exactly when a tracker cell strips to it and it is non-empty |
| `Scraper.TrackerTextsAppend` | app/scraper/audiobookbay_scraper.py:234-235 | trackers are listed in document order |
| `Scraper.ExtractTrackers` | app/scraper/audiobookbay_scraper.py:224-241 | never empty: the page's trackers when it has any, otherwise the six defaults |
| `Scraper.DisplaySegment` | app/scraper/audiobookbay_scraper.py:256 | the last `/`-free segment of the URL, or the one before a trailing `/` |
| `Scraper.DisplayName` | app/scraper/audiobookbay_scraper.py:256-257 | position by position, a hyphen of the segment becomes a space and any other character is upper-cased after a non-letter and lower-cased after a letter; no `-` or `/` is left |
| `Scraper.TrackerParamsFreeOfAmpersand` | app/scraper/audiobookbay_scraper.py:260 | no `tr=` parameter holds an `&` |
| `Scraper.TrackerParamsDecode` | app/scraper/audiobookbay_scraper.py:260 | each `tr=` parameter decodes to the UTF-8 bytes of its tracker |
| `Scraper.MagnetLinkReadsBack` | app/scraper/audiobookbay_scraper.py:243-265 | the link splits back into the `xt` parameter, the `dn` parameter and exactly one `tr` per tracker, each decoding to the tracker |
| `Scraper.QueryReadsBack` | app/scraper/audiobookbay_scraper.py:263-265 | `&`-free `xt`, `dn` and `tr` parameters joined by `&` split back into exactly those parameters |
| `Scraper.ExtractMagnetLink` | app/scraper/audiobookbay_scraper.py:164-200 | a link exactly for a 200 page with a non-empty info hash, built from that hash and the page's trackers |
| `Scraper.DefaultTrackersInMagnet` | app/scraper/audiobookbay_scraper.py:183-190 | a page without tracker cells gets the six default trackers, in declared order |
| `Scraper.SanitizeTitle` | app/scraper/audiobookbay_scraper.py:271-294 | never empty; `Unknown` for an empty title; every character is from `Unknown ` or a non-forbidden character of the title |
| `Scraper.SanitizeTitleIsSafe` | app/scraper/audiobookbay_scraper.py:271-294 | every result is non-empty, at most 200 characters, free of `<>:"/\|?*`, single-spaced and unpadded |
| `Scraper.SanitizeTitleIdempotent` | app/scraper/audiobookbay_scraper.py:271-294 | sanitising a sanitised title changes nothing |
| `Scraper.SanitizeTitleKeepsSafeNames` | app/scraper/audiobookbay_scraper.py:271-294 | a title that already is a safe directory name is kept as it is |
| `Scraper.SanitizeTitleKeepsText` | app/scraper/audiobookbay_scraper.py:284-294 | `Unknown` when the title collapses to nothing once the forbidden characters are gone; otherwise a prefix of that collapsed text, and all of it when it is at most 200 characters long |
| `Scraper.SanitizeTitleKeepsCharacters` | app/scraper/audiobookbay_scraper.py:284-294 | every character that is neither forbidden nor whitespace is kept, in order, when the collapsed text fits in 200 characters; a leading part of them when it is cut |
| `Scraper.CollapsedPrefixStripped` | app/scraper/audiobookbay_scraper.py:291-292 | cutting collapsed text to 200 and stripping it keeps it collapsed |
| `Scraper.ValidateUrl` | app/scraper/audiobookbay_scraper.py:296-310 | an accepted URL starts with `http` and is at least as long as the host name; an empty URL is refused |
| `Scraper.ExtractedLinksValidate` | app/scraper/audiobookbay_scraper.py:296-310 | every link the search emits passes `validate_audiobookbay_url` |
| `Torznab.RequestLimit` | app/api/torznab_api.py:240 | at most 100; 20 without a limit; an explicit limit up to 100 is kept, and one of 100 or more becomes 100 |
| `Torznab.ValidateApiKey` | app/api/torznab_api.py:39-49 | the configured key is accepted; a key of another length or differing at any position is refused |
| `Torznab.PyPrefix` | app/api/torznab_api.py:123 | `results[:limit]` is a prefix: the first `limit` items, or all but the last `-limit` for a negative limit |
| `Torznab.SearchForTorznab` | app/api/torznab_api.py:107-151 | the items are those of a three-page search, cut to `limit` and mapped item by item |
| `Torznab.TorznabSearchItems` | app/api/torznab_api.py:119-145 | item count as the slice gives it; title and description are the post title, link and comments its link, category Audiobooks, size 0 |
| `Torznab.TorznabApi` | app/api/torznab_api.py:217-253 | the endpoint answers as `ApiOutcome` prescribes |
| `Torznab.ApiOutcome` | app/api/torznab_api.py:217-253 | the capabilities exactly for `t=caps`; a feed exactly for `t=search` with a valid key, a non-blank query and no fault; the conditions of each error code are stated by `Torznab.ApiKeyRequiredExceptCaps` and `Torznab.ErrorCodes` |
| `Torznab.ApiKeyRequiredExceptCaps` | app/api/torznab_api.py:231-236 | error 100 exactly for a wrong key on a function other than `caps`; `caps` always answers |
| `Torznab.ErrorCodes` | app/api/torznab_api.py:217-253 | every error carries code 100, 200, 202 or 300; with a valid key, 200 exactly for a search with a blank query, 300 exactly for a search with a non-blank query whose execution raised, and 202 exactly for a function other than `caps` and `search` |
| `Torznab.SearchDispatch` | app/api/torznab_api.py:238-247 | with a valid key a blank query is error 200, otherwise the feed for the stripped query |
| `Torznab.SearchFeedBounded` | app/api/torznab_api.py:240-246 | a feed never exceeds the requested limit or 100 |
| `Torznab.NegativeLimitDropsFromEnd` | app/api/torznab_api.py:123 | a negative limit drops that many results from the end, bypassing the cap |
| `Torznab.DownloadOutcome` | app/api/torznab_api.py:255-273 | error 100 exactly for a wrong key, otherwise error 201 |
| `DownloadClient.ParsePort` | app/clients/download_client.py:30-31 | an unset or empty `DL_PORT` is no port; a port is only read from a non-empty value |
| `DownloadClient.LoadSettings` | app/clients/download_client.py:17-41 | loading fails exactly when a given `DL_URL` does not parse or, without one, `DL_PORT` is not a number; otherwise client, credentials, category (with its default) and save path come from the environment, and without `DL_URL` the scheme is `DL_SCHEME` (default `http`), the host `DL_HOST` and the port `DL_PORT` as `int()` reads it |
| `DownloadClient.ComposeUrlReadsBack` | app/clients/download_client.py:35 | the composed URL starts with `scheme://` and its text after the last `:` reads back as the port |
| `DownloadClient.DerivedUrlSetting` | app/clients/download_client.py:33-35 | without `DL_URL` the URL is the composed one when host and port are truthy, and `DL_URL` as it was otherwise |
| `DownloadClient.DerivedUrl` | app/clients/download_client.py:27-35 | without `DL_URL` a URL exists exactly when host and non-zero port are set, and it carries scheme and port |
| `DownloadClient.DerivedUrlFromEnvironment` | app/clients/download_client.py:27-35 | without `DL_URL`, a non-empty `DL_HOST` and a `DL_PORT` of `str(n)`, `n` non-zero, give the URL `DL_SCHEME://DL_HOST:n`, with `http` as the default scheme |
| `DownloadClient.GivenUrlWins` | app/clients/download_client.py:22-26 | a truthy `DL_URL` that parses is kept, and scheme, host and port come from parsing it; one that does not parse makes loading fail with the parse error |
| `DownloadClient.ParsePortOfDecimal` | app/clients/download_client.py:31 | `int(str(n))` is `n` |
| `DownloadClient.PortSettingReadsBack` | app/clients/download_client.py:28-31 | a `DL_PORT` written as `str(n)` loads as port `n` |
| `DownloadClient.ClientSelection` | app/clients/download_client.py:256-278 | a manager exactly for the four supported names after lower-casing; an unset name and an unsupported one are distinct errors; qBittorrent is built from host, port, credentials and category, Transmission from host, port, scheme and credentials, Deluge from the URL (derived or given), password and category (download_client.py:69-74, 134-139, 194-197) |
| `DownloadClient.GetDownloadClient` | app/clients/download_client.py:256-278 | a manager only for a truthy name that lower-cases to a supported one; no name is the not-configured error |
| `DownloadClient.ClientNameIgnoresCase` | app/clients/download_client.py:269 | names that lower-case alike select the same manager |
| `DownloadClient.AddTorrentSavePath` | app/clients/download_client.py:280-302 | an unset base fails first; success exactly when base, client and acceptance all hold; the torrent goes to `base/<sanitised title>`, a safe name after the last `/` |
| `DownloadClient.AddTorrent` | app/clients/download_client.py:280-302 | an unset base is the save-path error; a success is a submission the client accepts, carrying the magnet link; with base and client set, a refusal is the add error |
| `DownloadClient.TestConnection` | app/clients/download_client.py:317-329 | true exactly when a supported client is configured and its probe succeeds; never raises |
| `DownloadClient.ClientInfoFields` | app/clients/download_client.py:331-345 | unset or empty settings show as `None`; a port of 0 counts as unset; any other port reads back |
| `DownloadClient.GetClientInfo` | app/clients/download_client.py:331-345 | the category is reported as configured; an unset save path shows as `None` |
| `LegacyApp.ExtractPosts` | app.py:31-39 | at most one record per post, each linking under the hard-wired site |
| `LegacyApp.ExtractPostsAppend` | app.py:31-39 | extraction is post by post and keeps page order |
| `LegacyApp.ExtractPostsMembership` | app.py:31-39 | a record is listed exactly when some post yields it without raising |
| `LegacyApp.ExtractPostFields` | app.py:33-36 | a record exactly when the post has a title anchor with an `href` and no image or an image with `src`; the title is stripped, the link under the hard-wired site, the cover the `src` or the placeholder |
| `LegacyApp.ExtractPostVersusPackage` | app.py:33-35 | both filters agree on title and link; the legacy one keeps every post with an anchor, an `href` and a usable image, including blank titles and empty `href`s that the package drops, but drops images without `src` |
| `LegacyApp.AppendPagePosts` | app.py:30-39 | the inner loop over a page's posts appends exactly the records `ExtractPosts` gives, in order |
| `LegacyApp.SearchAudiobookbay` | app.py:18-40 | the loop computes `PagesFrom` up to `max_pages`, which defaults to 5 when not given: an unreachable page fails the search, a non-200 page ends it |
| `LegacyApp.PagesFrom` | app.py:18-40 | a failed search names a page within the range that was unreachable; every record found links under the hard-wired site |
| `LegacyApp.ReadsEveryPage` | app.py:23-39 | with all pages answering 200, every page up to `max_pages` is read, empty ones included |
| `LegacyApp.StopsAtFirstFailure` | app.py:26-28 | pages after the first non-200 answer are never looked at |
| `LegacyApp.NetworkErrorFailsSearch` | app.py:25 | an unreachable page after 200 pages fails the whole search |
| `LegacyApp.InfoHashNeedsExactLabel` | app.py:55-58 | no label is found exactly when no cell's string is exactly `Info Hash:` |
| `LegacyApp.CellTrackersMembership` | app.py:62-65 | a tracker is listed exactly when some `udp://` link in some cell strips to it |
| `LegacyApp.Trackers` | app.py:62-74 | never empty; the page's `udp://` trackers when there are any, the six defaults otherwise |
| `LegacyApp.BuildMagnetLink` | app.py:76-77 | the link starts with `magnet:?xt=urn:btih:` followed by the info hash |
| `LegacyApp.MagnetLinkReadsBack` | app.py:76-77 | with no `&` in hash or trackers, the link splits back into the hash and one `tr` per tracker |
| `LegacyApp.AmpersandTrackerSplits` | app.py:76-77 | a tracker `a&b` comes back as two parameters, a truncated `tr=a` and a bare `b` |
| `LegacyApp.ExtractMagnetLinkOutcome` | app.py:43-79 | a link exactly for a 200 page with an exact label and a cell after it; an unreachable page or a missing value cell raises |
| `LegacyApp.ExtractMagnetLink` | app.py:43-79 | an unreachable page raises; a link comes only from a 200 page and starts with the `xt` prefix |
| `LegacyApp.DefaultTrackersInMagnet` | app.py:66-77 | a page without `udp://` links gives a link with the six defaults in order |
| `LegacyApp.SanitizeTitle` | app.py:82-83 | drops `<>:"/\|?*`, strips the ends, adds nothing; an empty title stays empty |
| `LegacyApp.SanitizeTitleCutsOnlySpace` | app.py:82-83 | the result is a stretch of the title without `<>:"/\|?*`, and only whitespace is cut before and after it |
| `LegacyApp.SanitizeTitleKeepsCleanTitles` | app.py:82-83 | a title without forbidden characters or surrounding whitespace comes back unchanged, whatever its length and inner spacing |
| `LegacyApp.SanitizeTitleIdempotent` | app.py:82-83 | sanitising twice is sanitising once |
| `LegacyApp.AgreesWithPackageOnTidyTitles` | app.py:82-83 | on tidy titles the legacy and package sanitisers agree |

## Left out

- **HTML parsing and HTTP.** HTML parsing, CSS selectors and HTTP requests are not modelled. A page is given as the records the selectors would return, and the outcome of a request is an input.
- **Per-request inputs.** Request headers, timeouts, the search URL format (`/page/N/?s=…`) and the `query.replace(' ', '+')` step are not modelled. The site is passed per query instead.
- **Logging.** The `print` diagnostics and the `[SCRAPER]`/`[TORZNAB]`/`[DOWNLOAD]` log lines are not modelled.
- **Scraper exceptions.** Exceptions the scraper catches are modelled by their outcome: `Unreachable` or a non-200 status gives an empty page. Exceptions raised inside BeautifulSoup are outside the model.
- **The `isinstance(cover_src, str)` check.** It is not modelled because attribute values are strings in the model.
- **`get_scraper_stats`.** Not modelled: it only reports the configuration.
- **`.text` versus `.string`.** A cell's `.string` is given separately from its `.text`. BeautifulSoup's rule for when `.string` is defined is not modelled.
- **Case-insensitive matching.** Matching (`re.IGNORECASE`, `lower()`) and `title()` use ASCII case folding only. Non-ASCII letters are treated as uncased.
- **Surrogates and invalid characters.** UTF-8 encoding is over Unicode scalar values, so surrogates and `quote` on invalid text are not modelled.
- **Torznab XML.** The XML documents (`create_caps_response`, `create_search_response`, `create_error_response`, `torznab_info`) are not modelled. A response is the value they are rendered from.
- **GUID and publication date.** The feed item GUID (`abs(hash(link))`) and the publication date (the clock) are not modelled, because they depend on process hashing and on time.
- Torznab.TorznabApi: An exception escaping the search is the `fault` input. The package's search catches every exception of its own, so error 300 is reachable only through `fault`. A non-numeric `limit` raises in `int()` outside the `try`. This gives an HTTP 500 from the web framework and is not modelled: the request carries the already converted integer.
- Torznab.SearchFeedBounded: It is stated only for a missing or non-negative limit. A negative limit bypasses the cap, and `Torznab.NegativeLimitDropsFromEnd` states what it does instead.
- **Per-item exception handling.** The search's per-item exception handler (app/api/torznab_api.py:147-149) cannot fire on the records the scraper produces, so it is not modelled.
- **`extract_magnet_for_torznab` and the web routes.** The Flask routes of both applications, including `extract_magnet_for_torznab`, are not modelled. They pass requests through to the operations above.
- **Module-level configuration.** It is read once, at import time. The model computes it from an environment map.
- DownloadClient.ParsePort: A non-numeric `DL_PORT` is an `Err`, as `int()` raises. Surrounding whitespace and a leading `+` or `-` are accepted as `int()` accepts them; Python's `int()` also accepts underscores between digits and non-ASCII digits, which the model does not.
- DownloadClient.AddTorrent: The model assumes that `from audiobookbay_scraper import sanitize_title` (app/clients/download_client.py:294) resolves. The application imports its packages from `app/` as `api`, `scraper` and `clients` (app/app.py:12-14), so there the module is `scraper.audiobookbay_scraper`. Unless something not part of this model puts `app/scraper` on the import path, the import raises `ModuleNotFoundError`. That happens before the `SAVE_PATH_BASE` check, and it is not a `DownloadClientError`, so `/send` would answer "Unexpected error" (app/app.py:154-156).
- **The client manager classes.** Their `_get_client`, `add_torrent` and `get_torrents` methods talk to the qBittorrent, Transmission and Deluge libraries. Their effect is the `accepts` and `probe` inputs. Module-level `get_torrents` is not modelled because it only forwards to a manager.
- **The legacy application's qBittorrent calls and Flask routes.** These are not modelled because they are foreign calls and request handling.

## Findings

| source | as written | input that shows it | evidently intended | confidence | as-written member | corrected member |
|---|---|---|---|---|---|---|
| app.py:76-77 | trackers are put into the magnet URI without percent-encoding | a tracker `a&b`, e.g. an announce URL with a query such as `udp://t.example:80/announce?x=1&y=2` | each tracker percent-encoded, so that it reads back as one `tr` parameter, as the package's magnet builder does | medium, not executed | `LegacyApp.AmpersandTrackerSplits` | `Scraper.MagnetLinkReadsBack` |
