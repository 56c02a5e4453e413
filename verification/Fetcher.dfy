/** The redirecting fetcher of `crates/sb_core/file_fetcher.rs` and its persistent HTTP cache. The
    network, URL resolution, decoding, permissions and cache freshness are given from outside. */
module Fetcher {
  import opened Common

  type Url = string
  type Headers = map<string, string>

  datatype Entry = Entry(headers: Headers, body: seq<byte>)

  type HttpCache = map<Url, Entry>

  datatype SourceFile = SourceFile(specifier: Url, headers: Headers, source: string)

  datatype FetchError =
    TooManyRedirects | InvalidLocation | Undecodable | PermissionDenied | NotCached | RequestFailed | UnwrappedNone

  /** The answer of one HTTP request. `Failed` is an error that is not retried. */
  datatype Response =
    | Code(body: seq<byte>, headers: Headers)
    | NotModified
    | Redirect(url: Url, headers: Headers)
    | RequestError
    | ServerError
    | Failed

  datatype CacheSetting = ReloadAll | UseCache | Only | RespectHeaders | ReloadSome

  /** What the code calls and does not define; `network` also takes the number of requests made so far. */
  datatype World = World(
    network: (Url, nat) -> Response,
    resolveImport: (string, Url) -> Option<Url>,
    decode: (Url, seq<byte>, Headers) -> Option<string>,
    permitted: Url -> bool,
    stillFresh: (Entry, nat) -> bool,
    listedForReload: Url -> bool)

  const LOCATION := "location"

  // ----- the cached chain -----

  function BuildRemoteFile(w: World, u: Url, body: seq<byte>, headers: Headers): Result<SourceFile, FetchError> {
    match w.decode(u, body, headers)
    case None => Err(Undecodable)
    case Some(source) => Ok(SourceFile(u, headers, source))
  }

  /** `fetch_cached`. */
  function FetchCached(w: World, cache: HttpCache, u: Url, limit: int): Result<Option<SourceFile>, FetchError>
    decreases limit + 1
  {
    if limit < 0 then Err(TooManyRedirects)
    else if u !in cache then Ok(None)
    else if LOCATION in cache[u].headers then
      match w.resolveImport(cache[u].headers[LOCATION], u)
      case None => Err(InvalidLocation)
      case Some(v) => FetchCached(w, cache, v, limit - 1)
    else
      match BuildRemoteFile(w, u, cache[u].body, cache[u].headers)
      case Err(e) => Err(e)
      case Ok(file) => Ok(Some(file))
  }

  // ----- what a cached chain is -----

  /** From `u`, `k` cached redirects lead to `v`. */
  ghost predicate Leads(w: World, cache: HttpCache, u: Url, k: nat, v: Url)
    decreases k
  {
    if k == 0 then u == v
    else
      && u in cache && LOCATION in cache[u].headers && w.resolveImport(cache[u].headers[LOCATION], u).Some?
      && Leads(w, cache, w.resolveImport(cache[u].headers[LOCATION], u).value, k - 1, v)
  }

  /** What reading the cache gives at the end of a chain. */
  predicate ReadsAs(w: World, cache: HttpCache, v: Url, r: Result<Option<SourceFile>, FetchError>) {
    if v !in cache then r == Ok(None)
    else if LOCATION in cache[v].headers then
      w.resolveImport(cache[v].headers[LOCATION], v) == None && r == Err(InvalidLocation)
    else
      match w.decode(v, cache[v].body, cache[v].headers)
      case None => r == Err(Undecodable)
      case Some(source) => r == Ok(Some(SourceFile(v, cache[v].headers, source)))
  }

  ghost predicate IsTooLong(w: World, cache: HttpCache, u: Url, k: nat) {
    exists v :: Leads(w, cache, u, k, v)
  }

  ghost predicate EndsAs(w: World, cache: HttpCache, u: Url, limit: int, r: Result<Option<SourceFile>, FetchError>) {
    exists k: nat, v :: k <= limit && Leads(w, cache, u, k, v) && ReadsAs(w, cache, v, r)
  }

  /** The cache gives what stands at the end of the redirects, unless there are more of them than the limit. */
  lemma {:induction false} CachedIff(w: World, cache: HttpCache, u: Url, limit: int,
                                     r: Result<Option<SourceFile>, FetchError>)
    requires limit >= -1
    ensures r == FetchCached(w, cache, u, limit) <==>
              (r == Err(TooManyRedirects) && IsTooLong(w, cache, u, limit + 1)) || EndsAs(w, cache, u, limit, r)
    decreases limit + 1
  {
    if limit == -1 {
      assert Leads(w, cache, u, 0, u);
    } else if u in cache && LOCATION in cache[u].headers && w.resolveImport(cache[u].headers[LOCATION], u).Some? {
      var next := w.resolveImport(cache[u].headers[LOCATION], u).value;
      CachedIff(w, cache, next, limit - 1, r);
      CachedHop(w, cache, u, limit, r, next);
    } else {
      assert Leads(w, cache, u, 0, u);
      if k: nat, v :| k <= limit && Leads(w, cache, u, k, v) && ReadsAs(w, cache, v, r) {
        assert k == 0;
      }
      var n := limit + 1;
      if v :| Leads(w, cache, u, n, v) {
        assert false;
      }
    }
  }

  lemma CachedHop(w: World, cache: HttpCache, u: Url, limit: int, r: Result<Option<SourceFile>, FetchError>, next: Url)
    requires limit >= 0 && u in cache && LOCATION in cache[u].headers
    requires w.resolveImport(cache[u].headers[LOCATION], u) == Some(next)
    ensures IsTooLong(w, cache, u, limit + 1) <==> IsTooLong(w, cache, next, limit)
    ensures EndsAs(w, cache, u, limit, r) <==> EndsAs(w, cache, next, limit - 1, r)
  {
    var n := limit + 1;
    if v :| Leads(w, cache, u, n, v) { assert Leads(w, cache, next, limit, v); }
    if v :| Leads(w, cache, next, limit, v) { assert Leads(w, cache, u, n, v); }
    if k: nat, v :| k <= limit && Leads(w, cache, u, k, v) && ReadsAs(w, cache, v, r) {
      assert k > 0 && Leads(w, cache, next, k - 1, v);
    }
    if k: nat, v :| k <= limit - 1 && Leads(w, cache, next, k, v) && ReadsAs(w, cache, v, r) {
      assert Leads(w, cache, u, k + 1, v);
    }
  }

  /** A larger limit never loses a file. */
  lemma {:induction false} LargerLimit(w: World, cache: HttpCache, u: Url, limit: int, limit': int)
    requires limit <= limit'
    requires FetchCached(w, cache, u, limit).Ok? && FetchCached(w, cache, u, limit).value.Some?
    ensures FetchCached(w, cache, u, limit') == FetchCached(w, cache, u, limit)
    decreases limit + 1
  {
    if LOCATION in cache[u].headers {
      LargerLimit(w, cache, w.resolveImport(cache[u].headers[LOCATION], u).value, limit - 1, limit' - 1);
    }
  }

  /** A cached chain ends at an entry that is no redirect, and names it. */
  lemma {:induction false} ChainEndsAtItsFile(w: World, cache: HttpCache, u: Url, limit: int)
    requires FetchCached(w, cache, u, limit).Ok? && FetchCached(w, cache, u, limit).value.Some?
    ensures var end := FetchCached(w, cache, u, limit).value.value.specifier;
            end in cache && LOCATION !in cache[end].headers
    decreases limit + 1
  {
    if LOCATION in cache[u].headers {
      ChainEndsAtItsFile(w, cache, w.resolveImport(cache[u].headers[LOCATION], u).value, limit - 1);
    }
  }

  // ----- the live chain -----

  function ShouldUseCache(w: World, cache: HttpCache, now: nat, u: Url, setting: CacheSetting): bool {
    match setting
    case ReloadAll => false
    case UseCache => true
    case Only => true
    case RespectHeaders => u in cache && w.stillFresh(cache[u], now)
    case ReloadSome => !w.listedForReload(u)
  }

  predicate Retryable(r: Response) {
    r.RequestError? || r.ServerError?
  }

  /** One request, repeated once after a request or server error; with the number of requests so far. */
  function Ask(w: World, now: nat, u: Url): (Response, nat) {
    var first := w.network(u, now);
    if Retryable(first) then (w.network(u, now + 1), now + 2) else (first, now + 1)
  }

  /** How a successful fetch came by its file. */
  datatype Ending = FromCache | Fetched(specifier: Url, headers: Headers) | Revalidated | NoFile

  /** `faithful`: every redirect taken is what its own `location` header resolves to.
      `written`: the URLs whose cache entry was set. */
  datatype Fetch = Fetch(
    result: Result<SourceFile, FetchError>,
    cache: HttpCache,
    now: nat,
    written: set<Url>,
    faithful: bool,
    ending: Ending)

  function Stopped(e: FetchError, cache: HttpCache, now: nat): Fetch {
    Fetch(Err(e), cache, now, {}, true, NoFile)
  }

  predicate Resolves(w: World, u: Url, headers: Headers, v: Url) {
    LOCATION in headers && w.resolveImport(headers[LOCATION], u) == Some(v)
  }

  /** `fetch_remote`. */
  function FetchRemote(w: World, cache: HttpCache, now: nat, u: Url, limit: int, setting: CacheSetting): Fetch
    decreases limit + 1, 1
  {
    if limit < 0 then Stopped(TooManyRedirects, cache, now)
    else if !w.permitted(u) then Stopped(PermissionDenied, cache, now)
    else
      var cached := if ShouldUseCache(w, cache, now, u, setting) then FetchCached(w, cache, u, limit) else Ok(None);
      if cached.Err? then Stopped(cached.error, cache, now)
      else if cached.value.Some? then Fetch(Ok(cached.value.value), cache, now, {}, true, FromCache)
      else if setting.Only? then Stopped(NotCached, cache, now)
      else Download(w, cache, now, u, limit, setting)
  }

  function Download(w: World, cache: HttpCache, now: nat, u: Url, limit: int, setting: CacheSetting): Fetch
    requires limit >= 0
    decreases limit + 1, 0
  {
    var (response, now') := Ask(w, now, u);
    match response
    case Code(body, headers) =>
      var cache' := cache[u := Entry(headers, body)];
      Fetch(BuildRemoteFile(w, u, body, headers), cache', now', {u}, true, Fetched(u, headers))
    case NotModified =>
      (match FetchCached(w, cache, u, 10)
       case Err(e) => Stopped(e, cache, now')
       case Ok(None) => Stopped(UnwrappedNone, cache, now')
       case Ok(Some(file)) => Fetch(Ok(file), cache, now', {}, true, Revalidated))
    case Redirect(v, headers) =>
      var rest := FetchRemote(w, cache[u := Entry(headers, [])], now', v, limit - 1, setting);
      rest.(written := {u} + rest.written, faithful := Resolves(w, u, headers, v) && rest.faithful)
    case _ => Stopped(RequestFailed, cache, now')
  }

  /** How much further than the live limit a cached chain may have to go: the revalidation arm
      restarts at ten. */
  function Slack(ending: Ending): nat {
    if ending.Revalidated? then 10 else 0
  }

  /** What a successful fetch leaves behind for one URL. */
  ghost predicate Replays(w: World, f: Fetch, u: Url, limit: int) {
    f.result.Ok? && FetchCached(w, f.cache, u, limit + Slack(f.ending)) == Ok(Some(f.result.value))
  }

  predicate CleanEnding(f: Fetch) {
    f.ending.Fetched? ==> LOCATION !in f.ending.headers
  }

  /** The frame: the entry of a URL that was not written is untouched. */
  lemma {:induction false} UnwrittenKept(w: World, cache: HttpCache, now: nat, u: Url, limit: int,
                                         setting: CacheSetting, v: Url)
    requires v !in FetchRemote(w, cache, now, u, limit, setting).written
    ensures SameEntry(cache, FetchRemote(w, cache, now, u, limit, setting).cache, v)
    decreases limit + 1
  {
    var f := FetchRemote(w, cache, now, u, limit, setting);
    var (response, now') := Ask(w, now, u);
    if limit >= 0 && response.Redirect? && f == Download(w, cache, now, u, limit, setting) {
      UnwrittenKept(w, cache[u := Entry(response.headers, [])], now', response.url, limit - 1, setting, v);
    }
  }

  predicate SameEntry(a: HttpCache, b: HttpCache, u: Url) {
    (u in a <==> u in b) && (u in a ==> a[u] == b[u])
  }

  /** Every URL of the set replays the fetch. */
  ghost predicate AllReplay(w: World, f: Fetch, urls: set<Url>, limit: int) {
    forall x <- urls :: Replays(w, f, x, limit)
  }

  /** The loop-erasure step: if everything the rest of the chain wrote replays, so does this URL,
      whether its own entry survived or was overwritten by a later visit. */
  lemma RedirectReplays(w: World, u: Url, headers: Headers, v: Url, limit: int, rest: Fetch, urls: set<Url>)
    requires limit >= 0 && Resolves(w, u, headers, v) && v in urls
    requires AllReplay(w, rest, urls, limit - 1)
    requires u !in urls ==> u in rest.cache && rest.cache[u] == Entry(headers, [])
    ensures AllReplay(w, rest, urls + {u}, limit)
  {
    var slack := Slack(rest.ending);
    forall x | x in urls ensures Replays(w, rest, x, limit) {
      LargerLimit(w, rest.cache, x, limit - 1 + slack, limit + slack);
    }
    if u !in urls {
      assert FetchCached(w, rest.cache, u, limit + slack) == FetchCached(w, rest.cache, v, limit - 1 + slack);
    }
  }

  /** Any successful fetch whose redirects are faithful and whose final response is no redirect:
      afterwards the cached chain from every URL it wrote, and from its start, gives the same file.
      URLs may have been visited any number of times on the way. */
  lemma {:induction false} FetchThenReplay(w: World, cache: HttpCache, now: nat, u: Url, limit: int,
                                           setting: CacheSetting)
    requires var f := FetchRemote(w, cache, now, u, limit, setting);
             f.result.Ok? && f.faithful && CleanEnding(f)
    ensures var f := FetchRemote(w, cache, now, u, limit, setting);
            AllReplay(w, f, f.written + {u}, limit)
    decreases limit + 1
  {
    var f := FetchRemote(w, cache, now, u, limit, setting);
    var (response, now') := Ask(w, now, u);
    if f == Download(w, cache, now, u, limit, setting) && response.Redirect? {
      var v, cache1 := response.url, cache[u := Entry(response.headers, [])];
      var rest := FetchRemote(w, cache1, now', v, limit - 1, setting);
      FetchThenReplay(w, cache1, now', v, limit - 1, setting);
      if u !in rest.written { UnwrittenKept(w, cache1, now', v, limit - 1, setting, u); }
      RedirectReplays(w, u, response.headers, v, limit, rest, rest.written + {v});
    } else {
      AnswerReplays(w, cache, now, u, limit, setting);
    }
  }

  /** A fetch that was not redirected: from the cache, revalidated, or downloaded. */
  lemma AnswerReplays(w: World, cache: HttpCache, now: nat, u: Url, limit: int, setting: CacheSetting)
    requires var f := FetchRemote(w, cache, now, u, limit, setting);
             f.result.Ok? && CleanEnding(f)
               && !(f == Download(w, cache, now, u, limit, setting) && Ask(w, now, u).0.Redirect?)
    ensures var f := FetchRemote(w, cache, now, u, limit, setting);
            AllReplay(w, f, f.written + {u}, limit)
  {
    var f := FetchRemote(w, cache, now, u, limit, setting);
    if f.ending.Revalidated? {
      LargerLimit(w, cache, u, 10, limit + 10);
    }
  }

  /** A downloaded file is the last thing written, under its own specifier. */
  lemma {:induction false} DownloadIsLast(w: World, cache: HttpCache, now: nat, u: Url, limit: int,
                                          setting: CacheSetting)
    requires var f := FetchRemote(w, cache, now, u, limit, setting); f.result.Ok? && f.ending.Fetched?
    ensures var f := FetchRemote(w, cache, now, u, limit, setting);
            && f.result.value.specifier == f.ending.specifier && f.ending.specifier in f.cache
            && f.cache[f.ending.specifier].headers == f.ending.headers
    decreases limit + 1
  {
    var (response, now') := Ask(w, now, u);
    if response.Redirect? {
      DownloadIsLast(w, cache[u := Entry(response.headers, [])], now', response.url, limit - 1, setting);
    }
  }

  /** For a downloaded file the cache replays the fetch exactly when the final response carried no
      `location` header. */
  lemma ReplayIff(w: World, cache: HttpCache, now: nat, u: Url, limit: int, setting: CacheSetting)
    requires var f := FetchRemote(w, cache, now, u, limit, setting);
             f.result.Ok? && f.faithful && f.ending.Fetched?
    ensures var f := FetchRemote(w, cache, now, u, limit, setting);
            FetchCached(w, f.cache, u, limit) == Ok(Some(f.result.value)) <==> LOCATION !in f.ending.headers
  {
    var f := FetchRemote(w, cache, now, u, limit, setting);
    DownloadIsLast(w, cache, now, u, limit, setting);
    if LOCATION !in f.ending.headers {
      FetchThenReplay(w, cache, now, u, limit, setting);
      assert Replays(w, f, u, limit);
    } else if FetchCached(w, f.cache, u, limit) == Ok(Some(f.result.value)) {
      ChainEndsAtItsFile(w, f.cache, u, limit);
    }
  }

  /** A live redirect is followed by the rules of `http_util.rs`, its replay by those of import specifiers.
      Where the latter refuse the text, the fetch goes on as usual and its replay is an error. */
  lemma RefusedLocation(w: World, cache: HttpCache, now: nat, u: Url, limit: int, setting: CacheSetting)
    requires limit >= 0 && FetchRemote(w, cache, now, u, limit, setting) == Download(w, cache, now, u, limit, setting)
    requires Ask(w, now, u).0.Redirect?
    requires var headers := Ask(w, now, u).0.headers;
             LOCATION in headers && w.resolveImport(headers[LOCATION], u) == None
    requires u !in Followed(w, cache, now, u, limit, setting).written
    ensures var f := FetchRemote(w, cache, now, u, limit, setting);
            && !f.faithful && f.result == Followed(w, cache, now, u, limit, setting).result
            && FetchCached(w, f.cache, u, limit) == Err(InvalidLocation)
  {
    var (response, now') := Ask(w, now, u);
    var cache1 := cache[u := Entry(response.headers, [])];
    UnwrittenKept(w, cache1, now', response.url, limit - 1, setting, u);
  }

  /** The rest of a fetch whose first answer is a redirect. */
  function Followed(w: World, cache: HttpCache, now: nat, u: Url, limit: int, setting: CacheSetting): Fetch
    requires Ask(w, now, u).0.Redirect?
  {
    var (response, now') := Ask(w, now, u);
    FetchRemote(w, cache[u := Entry(response.headers, [])], now', response.url, limit - 1, setting)
  }

  /** The prefixes without which an import specifier that is no absolute URL is refused. */
  predicate HasImportPrefix(text: string) {
    "/" <= text || "./" <= text || "../" <= text || "http://" <= text || "https://" <= text
  }

  /** A location without such a prefix: fetched live, and an error from the cache ever after. */
  lemma BareLocationIsFetchedOnce() returns (w: World)
    ensures forall text: string, base: Url :: !HasImportPrefix(text) ==> w.resolveImport(text, base) == None
    ensures w.network("http://h/a.ts", 0) == Redirect("http://h/b.ts", map[LOCATION := "b.ts"])
    ensures var f := FetchRemote(w, map[], 0, "http://h/a.ts", 10, UseCache);
            && f.result == Ok(SourceFile("http://h/b.ts", map[], ""))
            && FetchCached(w, f.cache, "http://h/a.ts", 10) == Err(InvalidLocation)
  {
    var a, b := "http://h/a.ts", "http://h/b.ts";
    w := World(
      (u, now) => if u == "http://h/a.ts" then Redirect("http://h/b.ts", map[LOCATION := "b.ts"]) else Code([], map[]),
      (text, base) => if HasImportPrefix(text) then Some(text) else None,
      (u, body, headers) => Some(""), u => true, (entry, now) => true, u => false);
    assert a[9] == 'a' && b[9] == 'b' && "b.ts"[0] == 'b';
    RefusedLocation(w, map[], 0, a, 10, UseCache);
  }

  // ----- when the network is asked -----

  /** One request, and a second one exactly when the first failed in transit or on the server; the answer is that
      of the last request. */
  lemma AskRetriesOnce(w: World, now: nat, u: Url)
    ensures var n := Ask(w, now, u).1 - now;
            && Ask(w, now, u).0 == w.network(u, now + n - 1)
            && n == if w.network(u, now).RequestError? || w.network(u, now).ServerError? then 2 else 1
  {
  }

  /** The fetch returned a file and made no request. */
  predicate IsOffline(f: Fetch, cache: HttpCache, now: nat) {
    f.now == now && f.cache == cache && f.written == {}
  }

  /** Nothing is asked of the network, whatever the cache holds. */
  lemma OnlyIsOffline(w: World, cache: HttpCache, now: nat, u: Url, limit: int)
    requires limit >= 0
    ensures var f := FetchRemote(w, cache, now, u, limit, Only);
            && IsOffline(f, cache, now)
            && (!w.permitted(u) ==> f.result == Err(PermissionDenied))
            && (w.permitted(u) ==>
                  match FetchCached(w, cache, u, limit)
                  case Ok(Some(file)) => f.result == Ok(file)
                  case Ok(None) => f.result == Err(NotCached)
                  case Err(e) => f.result == Err(e))
  {
  }

  /** A URL that is not permitted, or one redirect too many, is refused before anything is asked. */
  lemma RefusedAtOnce(w: World, cache: HttpCache, now: nat, u: Url, limit: int, setting: CacheSetting)
    requires limit < 0 || !w.permitted(u)
    ensures var f := FetchRemote(w, cache, now, u, limit, setting);
            IsOffline(f, cache, now) && f.result == Err(if limit < 0 then TooManyRedirects else PermissionDenied)
  {
  }

  /** The setting and the cache let the cached file be used. */
  predicate MayUseCached(w: World, cache: HttpCache, now: nat, u: Url, setting: CacheSetting) {
    || setting == UseCache || setting == Only
    || (setting == ReloadSome && !w.listedForReload(u))
    || (setting == RespectHeaders && u in cache && w.stillFresh(cache[u], now))
  }

  /** A cached file that may be used is returned without a request; where it may not, and where nothing is
      cached, the network is asked. */
  lemma AsksIff(w: World, cache: HttpCache, now: nat, u: Url, limit: int, setting: CacheSetting)
    requires limit >= 0 && w.permitted(u)
    ensures var f := FetchRemote(w, cache, now, u, limit, setting);
            if MayUseCached(w, cache, now, u, setting) && FetchCached(w, cache, u, limit) != Ok(None)
            then IsOffline(f, cache, now) && Found(f.result) == FetchCached(w, cache, u, limit)
            else if setting == Only then IsOffline(f, cache, now) && f.result == Err(NotCached)
            else f.now > now && f == Download(w, cache, now, u, limit, setting)
  {
    if MayUseCached(w, cache, now, u, setting) && FetchCached(w, cache, u, limit) != Ok(None) {
    } else if setting != Only {
      NowGrows(w, cache, now, u, limit, setting);
    }
  }

  function Found(r: Result<SourceFile, FetchError>): Result<Option<SourceFile>, FetchError> {
    match r case Ok(file) => Ok(Some(file)) case Err(e) => Err(e)
  }

  /** Each redirect, and the answer after the last, costs one or two requests. */
  lemma {:induction false} NowGrows(w: World, cache: HttpCache, now: nat, u: Url, limit: int, setting: CacheSetting)
    requires limit >= 0
    ensures var f := Download(w, cache, now, u, limit, setting); now < f.now <= now + 2 * (limit + 1)
    ensures var f := FetchRemote(w, cache, now, u, limit, setting); now <= f.now <= now + 2 * (limit + 1)
    decreases limit
  {
    var (response, now') := Ask(w, now, u);
    if response.Redirect? && limit > 0 {
      NowGrows(w, cache[u := Entry(response.headers, [])], now', response.url, limit - 1, setting);
    }
  }

  /** With `ReloadAll` no file comes from the cache, unless the server says that it has not changed. */
  lemma {:induction false} ReloadAllAsks(w: World, cache: HttpCache, now: nat, u: Url, limit: int)
    requires limit >= 0 && w.permitted(u)
    ensures var f := FetchRemote(w, cache, now, u, limit, ReloadAll); f.now > now && !f.ending.FromCache?
    decreases limit
  {
    NowGrows(w, cache, now, u, limit, ReloadAll);
    var (response, now') := Ask(w, now, u);
    if response.Redirect? && limit > 0 && w.permitted(response.url) {
      ReloadAllAsks(w, cache[u := Entry(response.headers, [])], now', response.url, limit - 1);
    }
  }

  /** Only permitted URLs are asked for and written, and a file that is returned from the network is one. */
  lemma {:induction false} WrittenArePermitted(w: World, cache: HttpCache, now: nat, u: Url, limit: int,
                                               setting: CacheSetting)
    ensures forall x <- FetchRemote(w, cache, now, u, limit, setting).written :: w.permitted(x)
    decreases limit + 1
  {
    var (response, now') := Ask(w, now, u);
    if limit >= 0 && response.Redirect? {
      WrittenArePermitted(w, cache[u := Entry(response.headers, [])], now', response.url, limit - 1, setting);
    }
  }

  /** A downloaded file is what the server answered for its specifier, at some moment of the fetch: its text is
      decoded from that body, and that body and those headers are what the cache holds afterwards. */
  lemma {:induction false} FetchedIsTheAnswer(w: World, cache: HttpCache, now: nat, u: Url, limit: int,
                                              setting: CacheSetting) returns (t: nat, body: seq<byte>)
    requires FetchRemote(w, cache, now, u, limit, setting).ending.Fetched?
    ensures var f := FetchRemote(w, cache, now, u, limit, setting);
            var v, headers := f.ending.specifier, f.ending.headers;
            && now <= t < f.now && w.network(v, t) == Code(body, headers)
            && v in f.cache && f.cache[v] == Entry(headers, body)
            && f.result == match w.decode(v, body, headers)
                           case None => Err(Undecodable)
                           case Some(source) => Ok(SourceFile(v, headers, source))
    decreases limit + 1
  {
    var (response, now') := Ask(w, now, u);
    if response.Redirect? {
      t, body := FetchedIsTheAnswer(w, cache[u := Entry(response.headers, [])], now', response.url, limit - 1, setting);
    } else {
      t, body := now' - 1, response.body;
    }
  }

  /** A file that was not modified is the one the cache holds for a URL that the server said so of. */
  lemma {:induction false} RevalidatedIsCached(w: World, cache: HttpCache, now: nat, u: Url, limit: int,
                                               setting: CacheSetting) returns (t: nat, v: Url)
    requires FetchRemote(w, cache, now, u, limit, setting).ending.Revalidated?
    ensures var f := FetchRemote(w, cache, now, u, limit, setting);
            && now <= t < f.now && w.network(v, t) == NotModified
            && f.result.Ok? && FetchCached(w, f.cache, v, 10) == Ok(Some(f.result.value))
    decreases limit + 1
  {
    var (response, now') := Ask(w, now, u);
    if response.Redirect? {
      t, v := RevalidatedIsCached(w, cache[u := Entry(response.headers, [])], now', response.url, limit - 1, setting);
    } else {
      t, v := now' - 1, u;
    }
  }

  /** Asked at `now` for `u`, the network redirects `k` times through permitted URLs, and then to `v` at `t`. */
  ghost predicate Redirects(w: World, now: nat, u: Url, k: nat, t: nat, v: Url)
    decreases k
  {
    if k == 0 then u == v && now == t
    else
      && w.permitted(u) && Ask(w, now, u).0.Redirect?
      && Redirects(w, Ask(w, now, u).1, Ask(w, now, u).0.url, k - 1, t, v)
  }

  /** With `ReloadAll` the result is what the network answers at the end of its redirects, whatever is cached. */
  lemma {:induction false} ReloadAllResult(w: World, cache: HttpCache, now: nat, u: Url, limit: int,
                                           k: nat, t: nat, v: Url)
    requires limit >= -1 && k <= limit + 1 && Redirects(w, now, u, k, t, v)
    ensures var f, response := FetchRemote(w, cache, now, u, limit, ReloadAll), Ask(w, t, v).0;
            if k == limit + 1 then f.result == Err(TooManyRedirects)
            else if !w.permitted(v) then f.result == Err(PermissionDenied)
            else
              && (response.Code? ==>
                    f.ending == Fetched(v, response.headers)
                    && f.result == BuildRemoteFile(w, v, response.body, response.headers))
              && (response.RequestError? || response.ServerError? || response.Failed? ==>
                    f.result == Err(RequestFailed))
    decreases k
  {
    if k > 0 {
      var (response, now') := Ask(w, now, u);
      ReloadAllResult(w, cache[u := Entry(response.headers, [])], now', response.url, limit - 1, k - 1, t, v);
    }
  }

  /** The fetcher object: the persistent cache and the requests made so far. */
  class FileFetcher {
    const world: World
    var httpCache: HttpCache
    var requests: nat

    constructor (world: World, httpCache: HttpCache)
      ensures this.world == world && this.httpCache == httpCache && requests == 0
    {
      this.world, this.httpCache, requests := world, httpCache, 0;
    }

    /** The request loop of `fetch_remote`: a request or server error is retried once. */
    method FetchOnce(u: Url) returns (response: Response)
      modifies this`requests
      ensures (response, requests) == Ask(world, old(requests), u)
    {
      var retried := false;
      while true
        invariant requests == old(requests) + if retried then 1 else 0
        invariant retried ==> Retryable(world.network(u, old(requests)))
        decreases !retried
      {
        response := world.network(u, requests);
        requests := requests + 1;
        if !Retryable(response) || retried { return; }
        retried := true;
      }
    }

    /** `fetch_remote`. */
    method Fetch(u: Url, limit: int, setting: CacheSetting) returns (r: Result<SourceFile, FetchError>)
      modifies this
      ensures var f := FetchRemote(world, old(httpCache), old(requests), u, limit, setting);
              r == f.result && httpCache == f.cache && requests == f.now
      decreases limit + 1, 1
    {
      if limit < 0 { return Err(TooManyRedirects); }
      if !world.permitted(u) { return Err(PermissionDenied); }
      if ShouldUseCache(world, httpCache, requests, u, setting) {
        var cached := FetchCached(world, httpCache, u, limit);
        if cached.Err? { return Err(cached.error); }
        if cached.value.Some? { return Ok(cached.value.value); }
      }
      if setting.Only? { return Err(NotCached); }
      r := FetchLive(u, limit, setting);
    }

    /** The arms of `fetch_remote` that answer a response. */
    method FetchLive(u: Url, limit: int, setting: CacheSetting) returns (r: Result<SourceFile, FetchError>)
      requires limit >= 0
      modifies this
      ensures var f := Download(world, old(httpCache), old(requests), u, limit, setting);
              r == f.result && httpCache == f.cache && requests == f.now
      decreases limit + 1, 0
    {
      var response := FetchOnce(u);
      match response {
        case NotModified =>
          var cached := FetchCached(world, httpCache, u, 10);
          if cached.Err? { return Err(cached.error); }
          if cached.value.None? { return Err(UnwrappedNone); }
          return Ok(cached.value.value);
        case Redirect(v, headers) =>
          httpCache := httpCache[u := Entry(headers, [])];
          r := Fetch(v, limit - 1, setting);
        case Code(body, headers) =>
          httpCache := httpCache[u := Entry(headers, body)];
          return BuildRemoteFile(world, u, body, headers);
        case _ =>
          return Err(RequestFailed);
      }
    }

    /** A live fetch followed by an offline one of the same specifier, with the same redirect limit. */
    method FetchThenFetchOffline(u: Url, limit: int, setting: CacheSetting)
      returns (live: Result<SourceFile, FetchError>, offline: Result<Option<SourceFile>, FetchError>)
      modifies this
      ensures var f := FetchRemote(world, old(httpCache), old(requests), u, limit, setting);
              live == f.result
              && (live.Ok? && f.faithful && CleanEnding(f) && !f.ending.Revalidated? ==>
                    offline == Ok(Some(live.value)))
    {
      ghost var f := FetchRemote(world, httpCache, requests, u, limit, setting);
      if f.result.Ok? && f.faithful && CleanEnding(f) {
        FetchThenReplay(world, httpCache, requests, u, limit, setting);
        assert Replays(world, f, u, limit);
      }
      live := Fetch(u, limit, setting);
      offline := FetchCached(world, httpCache, u, limit);
    }
  }
}
