/** `download_ofac_sdn_data`: the process-wide cache of the parsed SDN list and the
    policy that decides between serving it, replacing it and falling back to it.
    The cache is an explicit value; the clock and the network are arguments. */
module Feed {
  import opened Base
  import opened Text
  import opened Sdn

  /** Cached data younger than this many seconds is served without a download. */
  const FreshFor: int := 86400

  /** Payloads shorter than this many bytes are taken for an error page. */
  const MinPayload: nat := 1000

  /** The module-level `_ofac_data` and `_cache_time`. */
  datatype CacheState = CacheState(data: Option<Document>, fetchedAt: Option<int>)

  /** The state at process start. */
  const EmptyCache := CacheState(None, None)

  /** The two globals are only ever set together. */
  predicate Consistent(c: CacheState) {
    c.data.Some? <==> c.fetchedAt.Some?
  }

  /** What the HTTP exchange delivered: status, `content-type` header ("" when
      absent), body length, and what parsing the body would give. */
  datatype Response = Response(status: nat, contentType: string, size: nat, parsed: Result<Document, string>)

  /** A download either yields a response, together with the clock reading taken once
      the body has been parsed, or raises before any response (timeout, DNS, ...). */
  datatype FetchOutcome = Received(response: Response, at: int) | NoResponse(reason: string)

  /** The reasons a download is refused, in the order they are checked. */
  datatype FetchError =
    | HttpStatus(code: nat)
    | BadContentType(contentType: string)
    | TooSmall(size: nat)
    | ParseFailed(reason: string)
    | Transport(reason: string)

  /** The exception text for each refusal. */
  function ErrorText(e: FetchError): string {
    match e
    case HttpStatus(code) => "HTTP " + Show(code)
    case BadContentType(ct) => "Unexpected content type: " + ct
    case TooSmall(n) => "Response too small (" + Show(n) + " bytes)"
    case ParseFailed(reason) => "XML parsing failed: " + reason
    case Transport(reason) => reason
  }

  /** The text of the exception raised when no data can be served. */
  function UnavailableText(e: FetchError): string {
    "Failed to get OFAC data: " + ErrorText(e)
  }

  predicate AcceptableType(contentType: string) {
    var ct := Lower(contentType);
    Contains(ct, "xml") || Contains(ct, "text")
  }

  /** The three transport checks followed by parsing; the first failing check names
      the refusal. */
  function Validate(resp: Response): (r: Result<Document, FetchError>)
    ensures r.Ok? <==>
      resp.status == 200 && AcceptableType(resp.contentType) && resp.size >= MinPayload && resp.parsed.Ok?
    ensures r.Ok? ==> r.value == resp.parsed.value
    ensures resp.status != 200 ==> r == Err(HttpStatus(resp.status))
    ensures resp.status == 200 && !AcceptableType(resp.contentType) ==> r == Err(BadContentType(resp.contentType))
    ensures resp.status == 200 && AcceptableType(resp.contentType) && resp.size < MinPayload ==>
      r == Err(TooSmall(resp.size))
    ensures resp.status == 200 && AcceptableType(resp.contentType) && resp.size >= MinPayload && resp.parsed.Err? ==>
      r == Err(ParseFailed(resp.parsed.error))
  {
    if resp.status != 200 then Err(HttpStatus(resp.status))
    else if !AcceptableType(resp.contentType) then Err(BadContentType(resp.contentType))
    else if resp.size < MinPayload then Err(TooSmall(resp.size))
    else match resp.parsed
      case Ok(doc) => Ok(doc)
      case Err(reason) => Err(ParseFailed(reason))
  }

  /** Fresh data is younger than `FreshFor` seconds at time `now`. */
  predicate IsFresh(c: CacheState, now: int) {
    c.data.Some? && c.fetchedAt.Some? && now - c.fetchedAt.value < FreshFor
  }

  /** How a request for the list was answered. */
  datatype Served =
    | Cached(doc: Document)                        // fresh cache, no download
    | Downloaded(doc: Document)                    // download accepted and cached
    | Stale(doc: Document, cause: FetchError)      // download refused, old data served
    | Unavailable(cause: FetchError)               // download refused, nothing to serve

  /** The cache after a request, and the answer to it. */
  datatype Step = Step(cache: CacheState, served: Served)

  /** Fetching is only consulted when the cache is not fresh. */
  function Attempt(fetch: FetchOutcome): Result<(Document, int), FetchError> {
    match fetch
    case NoResponse(reason) => Err(Transport(reason))
    case Received(resp, at) =>
      match Validate(resp)
      case Ok(doc) => Ok((doc, at))
      case Err(e) => Err(e)
  }

  /** One call of `download_ofac_sdn_data`. */
  function Download(c: CacheState, now: int, fetch: FetchOutcome): (r: Step)
    // fresh path: the cache answers and nothing changes
    ensures IsFresh(c, now) ==> r == Step(c, Cached(c.data.value))
    // the cache changes only on an accepted download, and then both fields together
    ensures r.cache != c ==> r.served.Downloaded? && r.cache.data == Some(r.served.doc) && r.cache.fetchedAt.Some?
    ensures r.served.Downloaded? <==>
      !IsFresh(c, now) && fetch.Received? && Validate(fetch.response).Ok?
    ensures r.served.Downloaded? ==>
      r.served.doc == fetch.response.parsed.value && r.cache == CacheState(Some(r.served.doc), Some(fetch.at))
    // a refused download serves whatever data there is, and fails only without any
    ensures r.served.Stale? ==> r.cache == c && c.data == Some(r.served.doc)
    ensures r.served.Unavailable? <==> !r.served.Downloaded? && c.data.None?
    ensures r.served.Unavailable? ==> r.cache == c
    // the refusal carried along is the one the download attempt met
    ensures r.served.Stale? || r.served.Unavailable? ==> !IsFresh(c, now) && Attempt(fetch) == Err(r.served.cause)
  {
    if IsFresh(c, now) then
      Step(c, Cached(c.data.value))
    else
      match Attempt(fetch)
      case Ok((doc, at)) => Step(CacheState(Some(doc), Some(at)), Downloaded(doc))
      case Err(e) =>
        if c.data.Some? then Step(c, Stale(c.data.value, e)) else Step(c, Unavailable(e))
  }

  /** The data a step hands to the matcher, if any. */
  function ServedData(s: Served): Result<Document, string> {
    match s
    case Cached(doc) => Ok(doc)
    case Downloaded(doc) => Ok(doc)
    case Stale(doc, _) => Ok(doc)
    case Unavailable(e) => Err(UnavailableText(e))
  }

  /** A fresh cache is answered without looking at the network: any two fetch
      outcomes give the same step. */
  lemma FreshIgnoresFetch(c: CacheState, now: int, f1: FetchOutcome, f2: FetchOutcome)
    requires IsFresh(c, now)
    ensures Download(c, now, f1) == Download(c, now, f2)
    ensures Download(c, now, f1).served == Cached(c.data.value)
  {
  }

  /** Once some data has been loaded, a request never fails: it serves the cache, a
      new download or the stale copy. */
  lemma LoadedNeverUnavailable(c: CacheState, now: int, fetch: FetchOutcome)
    requires c.data.Some?
    ensures ServedData(Download(c, now, fetch).served).Ok?
    ensures !Download(c, now, fetch).served.Downloaded? ==>
      ServedData(Download(c, now, fetch).served) == Ok(c.data.value)
  {
  }

  /** The first request after start fails exactly when its download is refused. */
  lemma ColdStart(now: int, fetch: FetchOutcome)
    ensures Download(EmptyCache, now, fetch).served.Unavailable? <==> Attempt(fetch).Err?
  {
  }

  /** Data and timestamp stay set together across any request. */
  lemma DownloadKeepsConsistent(c: CacheState, now: int, fetch: FetchOutcome)
    requires Consistent(c)
    ensures Consistent(Download(c, now, fetch).cache)
  {
  }

  /** Two requests within a day of an accepted download: the second is answered
      from the cache with the very data downloaded, whatever the network does. */
  lemma SecondRequestWithinDayIsCached(c: CacheState, t1: int, f1: FetchOutcome, t2: int, f2: FetchOutcome)
    requires Download(c, t1, f1).served.Downloaded?
    requires t2 - f1.at < FreshFor
    ensures var s1 := Download(c, t1, f1);
      Download(s1.cache, t2, f2) == Step(s1.cache, Cached(s1.served.doc))
  {
  }

  /** A request answered from the cache leaves the cache as it was, so any later
      request still within a day of the stored timestamp is answered the same way. */
  lemma CachedStaysCached(c: CacheState, t1: int, f1: FetchOutcome, t2: int, f2: FetchOutcome)
    requires Download(c, t1, f1).served.Cached?
    requires c.fetchedAt.Some? && t2 - c.fetchedAt.value < FreshFor
    ensures Download(Download(c, t1, f1).cache, t2, f2) == Download(c, t1, f1)
  {
  }
}
