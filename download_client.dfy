/**
 * The download-client layer of `app/clients/download_client.py`: how the
 * connection settings are read from the environment (including the derived
 * `DL_URL`), which client manager is chosen, the save path a torrent is
 * added under, the connection test and the configuration summary.
 *
 * The environment is a map from variable names to values, `urlparse` (which
 * may fail) is a
 * parameter, and what the torrent clients answer is a parameter too; the
 * client libraries themselves are not modelled.
 */
module DownloadClient {
  import opened Wrappers
  import opened PyStr
  import Scraper

  /** The process environment, as `os.getenv` sees it. */
  type Environment = map<string, string>

  /** `os.getenv(name)`. */
  function Getenv(env: Environment, name: string): Option<string> {
    if name in env then Some(env[name]) else None
  }

  /** `os.getenv(name, default)`. */
  function GetenvOr(env: Environment, name: string, default: string): string {
    if name in env then env[name] else default
  }

  /** Python truthiness of an optional string: set and not empty. */
  predicate Truthy(v: Option<string>) {
    v.Some? && v.value != []
  }

  /** What `urlparse(DL_URL)` yields that the module keeps. */
  datatype ParsedUrl = ParsedUrl(scheme: string, hostname: Option<string>, port: Option<int>)

  /**
   * `urlparse` followed by reading `.scheme`, `.hostname` and `.port`; `Err`
   * is the `ValueError` raised for a malformed URL or a port that is not a
   * number in range.
   */
  type UrlParser = string -> Result<ParsedUrl, string>

  /** The module-level configuration, after the import-time code has run. */
  datatype Settings = Settings(
    client: Option<string>,
    url: Option<string>,
    scheme: string,
    host: Option<string>,
    port: Option<int>,
    username: Option<string>,
    password: Option<string>,
    category: string,
    savePathBase: Option<string>)

  const DefaultScheme := "http"
  const DefaultCategory := "Audiobookbay-Audiobooks"

  /** `int(DL_PORT) if DL_PORT else None`; `Err` carries a value `int` rejects. */
  function ParsePort(portText: Option<string>): (r: Result<Option<int>, string>)
    ensures !Truthy(portText) ==> r == Ok(None)
    ensures r.Ok? && r.value.Some? ==> Truthy(portText)
  {
    if !Truthy(portText) then Ok(None)
    else match DecimalValue(Strip(portText.value))
      case None => Err(portText.value)
      case Some(n) => Ok(Some(n))
  }

  /** `f"{DL_SCHEME}://{DL_HOST}:{DL_PORT}"`. */
  function ComposeUrl(scheme: string, host: string, port: int): string {
    scheme + "://" + host + ":" + IntToString(port)
  }

  /**
   * The import-time configuration. A truthy `DL_URL` supplies scheme, host
   * and port through `urlparse`; otherwise they come from `DL_SCHEME`,
   * `DL_HOST` and `DL_PORT`, and `DL_URL` is composed from them when host and
   * port are both truthy. `Err` is the `ValueError` of a non-numeric `DL_PORT`.
   */
  function LoadSettings(env: Environment, urlparse: UrlParser): (r: Result<Settings, string>)
    ensures r.Err? <==>
      if Truthy(Getenv(env, "DL_URL")) then urlparse(Getenv(env, "DL_URL").value).Err?
      else ParsePort(Getenv(env, "DL_PORT")).Err?
    ensures r.Ok? ==>
      && r.value.client == Getenv(env, "DOWNLOAD_CLIENT")
      && r.value.username == Getenv(env, "DL_USERNAME") && r.value.password == Getenv(env, "DL_PASSWORD")
      && r.value.category == GetenvOr(env, "DL_CATEGORY", DefaultCategory)
      && r.value.savePathBase == Getenv(env, "SAVE_PATH_BASE")
    ensures r.Ok? && !Truthy(Getenv(env, "DL_URL")) ==>
      && r.value.scheme == GetenvOr(env, "DL_SCHEME", DefaultScheme)
      && r.value.host == Getenv(env, "DL_HOST")
      && ParsePort(Getenv(env, "DL_PORT")) == Ok(r.value.port)
  {
    var client := Getenv(env, "DOWNLOAD_CLIENT");
    var url := Getenv(env, "DL_URL");
    var username := Getenv(env, "DL_USERNAME");
    var password := Getenv(env, "DL_PASSWORD");
    var category := GetenvOr(env, "DL_CATEGORY", DefaultCategory);
    var savePathBase := Getenv(env, "SAVE_PATH_BASE");
    if Truthy(url) then
      match urlparse(url.value)
      case Err(bad) => Err(bad)
      case Ok(parsed) =>
        Ok(Settings(client, url, parsed.scheme, parsed.hostname, parsed.port, username, password, category, savePathBase))
    else
      var scheme := GetenvOr(env, "DL_SCHEME", DefaultScheme);
      var host := Getenv(env, "DL_HOST");
      match ParsePort(Getenv(env, "DL_PORT"))
      case Err(bad) => Err(bad)
      case Ok(port) =>
        var derived :=
          if Truthy(host) && port.Some? && port.value != 0 then Some(ComposeUrl(scheme, host.value, port.value))
          else url;
        Ok(Settings(client, derived, scheme, host, port, username, password, category, savePathBase))
  }

  /** `str(n)` is made of a minus sign and decimal digits only. */
  lemma IntToStringChars(n: int)
    ensures forall i :: 0 <= i < |IntToString(n)| ==> IntToString(n)[i] == '-' || '0' <= IntToString(n)[i] <= '9'
  {
    var r := IntToString(n);
    var d := if n < 0 then NatToString(-n) else NatToString(n);
    assert IsDigits(d);
    assert r == (if n < 0 then "-" else "") + d;
    forall i | 0 <= i < |r| ensures r[i] == '-' || '0' <= r[i] <= '9' {
      if n < 0 && i > 0 {
        assert r[i] == d[i - 1];
      } else if n >= 0 {
        assert r[i] == d[i];
      }
    }
  }

  /** Every suffix of `s` longer than `tail` reaches the separator in front of `tail`. */
  lemma LongSuffixHasSeparator(prefix: string, tail: string, sep: char, k: int)
    ensures var s := prefix + [sep] + tail;
      |tail| < k <= |s| ==> sep in s[|s| - k..]
  {
    var s := prefix + [sep] + tail;
    if |tail| < k <= |s| {
      assert s[|s| - k..][k - |tail| - 1] == s[|s| - |tail| - 1];
    }
  }

  /** The characters just in front of a shorter suffix all belong to `tail`. */
  lemma ShortSuffixFollowsTail(prefix: string, tail: string, sep: char, k: int)
    requires sep !in tail
    ensures var s := prefix + [sep] + tail;
      0 <= k < |tail| ==> s[|s| - k - 1] != sep
  {
    var s := prefix + [sep] + tail;
    if 0 <= k < |tail| {
      assert s[|s| - k - 1] == tail[|tail| - k - 1];
    }
  }

  /** The text after the last separator of `prefix + [sep] + tail`, when `tail` has no separator, is `tail`. */
  lemma LastPartOfSuffix(prefix: string, tail: string, sep: char)
    requires sep !in tail
    ensures LastPart(prefix + [sep] + tail, sep) == tail
  {
    var s := prefix + [sep] + tail;
    var r := LastPart(s, sep);
    LongSuffixHasSeparator(prefix, tail, sep, |r|);
    ShortSuffixFollowsTail(prefix, tail, sep, |r|);
    assert |r| == |tail|;
    assert s[|s| - |tail|..] == tail;
  }

  /** A composed URL starts with the scheme and `://`, and the text after its last colon reads back as the port. */
  lemma ComposeUrlReadsBack(scheme: string, host: string, port: int)
    ensures StartsWith(ComposeUrl(scheme, host, port), scheme + "://")
    ensures DecimalValue(LastPart(ComposeUrl(scheme, host, port), ':')) == Some(port)
  {
    var url := ComposeUrl(scheme, host, port);
    IntToStringChars(port);
    assert ':' !in IntToString(port);
    assert url == scheme + "://" + host + [':'] + IntToString(port);
    LastPartOfSuffix(scheme + "://" + host, IntToString(port), ':');
    IntToStringRoundTrip(port);
    assert url[..|scheme + "://"|] == scheme + "://";
  }

  /** Without `DL_URL`, the URL setting is the composed one when host and port are truthy, and otherwise `DL_URL` as it was. */
  lemma DerivedUrlSetting(env: Environment, urlparse: UrlParser)
    requires !Truthy(Getenv(env, "DL_URL"))
    ensures LoadSettings(env, urlparse).Ok? ==>
      var s := LoadSettings(env, urlparse).value;
      s.url == if Truthy(s.host) && s.port.Some? && s.port.value != 0 then Some(ComposeUrl(s.scheme, s.host.value, s.port.value))
               else Getenv(env, "DL_URL")
  {
  }

  /**
   * Without `DL_URL`, the URL is composed exactly when host and port are both
   * truthy; it starts with the scheme and `://`, and the text after its last
   * colon reads back as the port.
   */
  lemma DerivedUrl(env: Environment, urlparse: UrlParser)
    requires !Truthy(Getenv(env, "DL_URL"))
    ensures LoadSettings(env, urlparse).Ok? ==>
      var s := LoadSettings(env, urlparse).value;
      && (Truthy(s.url) <==> Truthy(s.host) && s.port.Some? && s.port.value != 0)
      && (Truthy(s.url) ==>
            && StartsWith(s.url.value, s.scheme + "://")
            && DecimalValue(LastPart(s.url.value, ':')) == s.port)
  {
    DerivedUrlSetting(env, urlparse);
    var r := LoadSettings(env, urlparse);
    if r.Ok? {
      var s := r.value;
      if Truthy(s.host) && s.port.Some? && s.port.value != 0 {
        ComposeUrlReadsBack(s.scheme, s.host.value, s.port.value);
      }
    }
  }

  /**
   * A truthy `DL_URL` wins: when it parses, it is kept as is, the parse
   * supplies scheme, host and port, and `DL_PORT` is not even read; when it
   * does not, loading the configuration fails with the parse error.
   */
  lemma GivenUrlWins(env: Environment, urlparse: UrlParser)
    requires Truthy(Getenv(env, "DL_URL"))
    ensures var url := Getenv(env, "DL_URL");
      var parsed := urlparse(url.value);
      && (parsed.Err? ==> LoadSettings(env, urlparse) == Err(parsed.error))
      && (parsed.Ok? ==>
            && LoadSettings(env, urlparse).Ok?
            && LoadSettings(env, urlparse).value.url == url
            && LoadSettings(env, urlparse).value.scheme == parsed.value.scheme
            && LoadSettings(env, urlparse).value.host == parsed.value.hostname
            && LoadSettings(env, urlparse).value.port == parsed.value.port)
  {
  }

  /**
   * Without `DL_URL`, a non-empty `DL_HOST` and a `DL_PORT` written as a
   * non-zero `str(n)` give the URL `DL_SCHEME://DL_HOST:n`, the scheme
   * defaulting to `http`.
   */
  lemma DerivedUrlFromEnvironment(env: Environment, urlparse: UrlParser, host: string, n: int)
    requires !Truthy(Getenv(env, "DL_URL"))
    requires Getenv(env, "DL_HOST") == Some(host) && host != []
    requires Getenv(env, "DL_PORT") == Some(IntToString(n)) && n != 0
    ensures LoadSettings(env, urlparse).Ok?
    ensures LoadSettings(env, urlparse).value.url == Some(ComposeUrl(GetenvOr(env, "DL_SCHEME", DefaultScheme), host, n))
  {
    ParsePortOfDecimal(n);
  }

  /** `int(str(n)) == n`, as `DL_PORT` is read. */
  lemma ParsePortOfDecimal(n: int)
    ensures ParsePort(Some(IntToString(n))) == Ok(Some(n))
  {
    StripOfIntToString(n);
    IntToStringRoundTrip(n);
  }

  /** A minus sign or a digit is not whitespace. */
  lemma SignAndDigitsAreNotSpace(c: char)
    requires c == '-' || '0' <= c <= '9'
    ensures !IsSpace(c)
  {
  }

  /** `str(n)` has no whitespace to strip. */
  lemma StripOfIntToString(n: int)
    ensures Strip(IntToString(n)) == IntToString(n)
  {
    var text := IntToString(n);
    IntToStringChars(n);
    forall i | 0 <= i < |text| ensures !IsSpace(text[i]) {
      SignAndDigitsAreNotSpace(text[i]);
    }
    StripFacts(text);
  }

  /** A port written as `str(n)` is read back as `n`. */
  lemma PortSettingReadsBack(env: Environment, urlparse: UrlParser, n: int)
    requires !Truthy(Getenv(env, "DL_URL"))
    requires Getenv(env, "DL_PORT") == Some(IntToString(n))
    ensures LoadSettings(env, urlparse).Ok?
    ensures LoadSettings(env, urlparse).value.port == Some(n)
  {
    ParsePortOfDecimal(n);
  }

  /** One manager per supported client, holding the settings it connects with. */
  datatype Manager =
    | QBittorrent(host: Option<string>, port: Option<int>, username: Option<string>, password: Option<string>, category: string)
    | Transmission(host: Option<string>, port: Option<int>, protocol: string, username: Option<string>, password: Option<string>)
    | Deluge(url: Option<string>, password: Option<string>, category: string)

  /** The `DownloadClientError`s the module raises itself. */
  datatype ClientError =
    | NoClientConfigured
    | UnsupportedClient(name: string)
    | SavePathNotConfigured
    | AddFailed

  /** The client names accepted, once lower-cased. */
  const SupportedClients: set<string> := {"qbittorrent", "transmission", "delugeweb", "deluge"}

  /** `get_download_client`: the manager named by `DOWNLOAD_CLIENT`, compared case-insensitively. */
  function GetDownloadClient(s: Settings): (r: Result<Manager, ClientError>)
    ensures r.Ok? ==> Truthy(s.client) && Lower(s.client.value) in SupportedClients
    ensures !Truthy(s.client) ==> r == Err(NoClientConfigured)
  {
    if !Truthy(s.client) then Err(NoClientConfigured)
    else
      var clientType := Lower(s.client.value);
      if clientType == "qbittorrent" then Ok(QBittorrent(s.host, s.port, s.username, s.password, s.category))
      else if clientType == "transmission" then Ok(Transmission(s.host, s.port, s.scheme, s.username, s.password))
      else if clientType == "delugeweb" || clientType == "deluge" then Ok(Deluge(s.url, s.password, s.category))
      else Err(UnsupportedClient(s.client.value))
  }

  /**
   * A manager is returned exactly when the lower-cased client name is one of
   * the four supported names; an unset or empty name is `NoClientConfigured`,
   * any other name `UnsupportedClient` carrying the name as given. Each
   * manager is built from the settings its `__init__` copies: qBittorrent
   * from host, port, credentials and category, Transmission from host, port,
   * scheme and credentials, Deluge from the (possibly derived) URL, the
   * password and the category.
   */
  lemma ClientSelection(s: Settings)
    ensures GetDownloadClient(s).Ok? <==> Truthy(s.client) && Lower(s.client.value) in SupportedClients
    ensures GetDownloadClient(s) == Err(NoClientConfigured) <==> !Truthy(s.client)
    ensures GetDownloadClient(s).Err? && Truthy(s.client) ==> GetDownloadClient(s) == Err(UnsupportedClient(s.client.value))
    ensures GetDownloadClient(s).Ok? ==>
      var m := GetDownloadClient(s).value;
      && (m.QBittorrent? <==> Lower(s.client.value) == "qbittorrent")
      && (m.Transmission? <==> Lower(s.client.value) == "transmission")
      && (m.Deluge? <==> Lower(s.client.value) in {"delugeweb", "deluge"})
    ensures GetDownloadClient(s).Ok? ==>
      var m := GetDownloadClient(s).value;
      && (m.QBittorrent? ==> m == QBittorrent(s.host, s.port, s.username, s.password, s.category))
      && (m.Transmission? ==> m == Transmission(s.host, s.port, s.scheme, s.username, s.password))
      && (m.Deluge? ==> m == Deluge(s.url, s.password, s.category))
  {
  }

  /** Two spellings of the client name that lower-case alike select the same manager. */
  lemma ClientNameIgnoresCase(s: Settings, name: string)
    requires Truthy(s.client) && name != [] && Lower(name) == Lower(s.client.value)
    ensures GetDownloadClient(s.(client := Some(name))).Ok? == GetDownloadClient(s).Ok?
    ensures GetDownloadClient(s).Ok? ==> GetDownloadClient(s.(client := Some(name))) == GetDownloadClient(s)
  {
  }

  /** What is handed to the chosen client when a torrent is added. */
  datatype Submission = Submission(manager: Manager, magnetLink: string, savePath: string)

  /**
   * `add_torrent`: the save path is `SAVE_PATH_BASE/<sanitised title>`, and
   * an unset base is refused before any client is chosen. `accepts` says
   * whether the client takes the torrent; a refusal is the manager's
   * `DownloadClientError`.
   */
  function AddTorrent(s: Settings, magnetLink: string, title: string, accepts: Submission -> bool)
    : (r: Result<Submission, ClientError>)
    ensures !Truthy(s.savePathBase) ==> r == Err(SavePathNotConfigured)
    ensures r.Ok? ==> accepts(r.value) && r.value.magnetLink == magnetLink
    ensures r.Err? && Truthy(s.savePathBase) && GetDownloadClient(s).Ok? ==> r == Err(AddFailed)
  {
    if !Truthy(s.savePathBase) then Err(SavePathNotConfigured)
    else
      var savePath := s.savePathBase.value + "/" + Scraper.SanitizeTitle(title);
      match GetDownloadClient(s)
      case Err(e) => Err(e)
      case Ok(manager) =>
        var submission := Submission(manager, magnetLink, savePath);
        if accepts(submission) then Ok(submission) else Err(AddFailed)
  }

  /**
   * Adding a torrent succeeds exactly when a base path is set, a supported
   * client is configured and it accepts the torrent. The torrent then goes
   * to a directory directly below the base, whose name is the sanitised
   * title: a safe directory name that is the text after the last `/`.
   */
  lemma AddTorrentSavePath(s: Settings, magnetLink: string, title: string, accepts: Submission -> bool)
    ensures !Truthy(s.savePathBase) ==> AddTorrent(s, magnetLink, title, accepts) == Err(SavePathNotConfigured)
    ensures AddTorrent(s, magnetLink, title, accepts).Ok? <==>
      && Truthy(s.savePathBase) && GetDownloadClient(s).Ok?
      && accepts(Submission(GetDownloadClient(s).value, magnetLink, s.savePathBase.value + "/" + Scraper.SanitizeTitle(title)))
    ensures AddTorrent(s, magnetLink, title, accepts).Ok? ==>
      var sub := AddTorrent(s, magnetLink, title, accepts).value;
      var dir := Scraper.SanitizeTitle(title);
      && sub.manager == GetDownloadClient(s).value
      && sub.magnetLink == magnetLink
      && sub.savePath == s.savePathBase.value + "/" + dir
      && Scraper.IsSafeDirName(dir)
      && LastPart(sub.savePath, '/') == dir
  {
    var r := AddTorrent(s, magnetLink, title, accepts);
    if r.Ok? {
      var dir := Scraper.SanitizeTitle(title);
      Scraper.SanitizeTitleIsSafe(title);
      assert '/' in Scraper.ForbiddenChars;
      assert r.value.savePath == s.savePathBase.value + ['/'] + dir;
      LastPartOfSuffix(s.savePathBase.value, dir, '/');
    }
  }

  /**
   * `test_connection`: never raises. It is false when no supported client
   * is configured; otherwise it is what the manager's own test reports
   * (`probe`), which turns every failure into false as well.
   */
  function TestConnection(s: Settings, probe: Manager -> bool): (ok: bool)
    ensures ok <==> GetDownloadClient(s).Ok? && probe(GetDownloadClient(s).value)
    ensures !Truthy(s.client) ==> !ok
  {
    match GetDownloadClient(s)
    case Err(_) => false
    case Ok(manager) => probe(manager)
  }

  /** The summary `get_client_info` returns. */
  datatype ClientInfo = ClientInfo(
    clientType: string, host: string, port: string, url: string, category: string, savePathBase: string)

  /** `value or 'None'`. */
  function OrNone(v: Option<string>): string {
    if Truthy(v) then v.value else "None"
  }

  /** `get_client_info`. */
  function GetClientInfo(s: Settings): (info: ClientInfo)
    ensures info.category == s.category
    ensures !Truthy(s.savePathBase) ==> info.savePathBase == "None"
  {
    ClientInfo(
      OrNone(s.client),
      OrNone(s.host),
      if s.port.Some? && s.port.value != 0 then IntToString(s.port.value) else "None",
      OrNone(s.url),
      s.category,
      OrNone(s.savePathBase))
  }

  /**
   * Every unset or empty setting is shown as `None`, every other one as its
   * value; a port of 0 counts as unset, and any other port is shown as
   * decimal text that reads back as the port.
   */
  lemma ClientInfoFields(s: Settings)
    ensures var info := GetClientInfo(s);
      && (info.port == "None" <==> s.port.None? || s.port.value == 0)
      && (info.port != "None" ==> DecimalValue(info.port) == s.port)
      && (Truthy(s.client) ==> info.clientType == s.client.value)
      && (!Truthy(s.client) ==> info.clientType == "None")
      && (Truthy(s.host) ==> info.host == s.host.value)
      && (!Truthy(s.host) ==> info.host == "None")
      && (Truthy(s.url) ==> info.url == s.url.value)
      && (!Truthy(s.url) ==> info.url == "None")
      && (Truthy(s.savePathBase) ==> info.savePathBase == s.savePathBase.value)
      && (!Truthy(s.savePathBase) ==> info.savePathBase == "None")
      && info.category == s.category
  {
    var info := GetClientInfo(s);
    if s.port.Some? && s.port.value != 0 {
      IntToStringRoundTrip(s.port.value);
      assert DecimalValue("None") == None;
    }
  }
}
