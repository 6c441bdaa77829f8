/** `check_ofac`: validate the query, obtain the list through the cache, match every
    entry, and render the answer. The cache is threaded through explicitly: the
    answer carries the cache as it is after the call. */
module Ofac {
  import opened Base
  import opened Text
  import opened Sdn
  import opened Feed
  import opened Matching
  import opened Report

  /** The text returned to the caller and the cache left behind. */
  datatype Answer = Answer(cache: CacheState, text: string)

  /** The answer once the list has been obtained: the ranked matches for the
      stripped query, or the "no match" report when there are none. */
  function Verdict(doc: Document, query: string, mode: Mode, threshold: int, sc: Scorers): (text: string)
    ensures Search(doc, query, mode, threshold, sc) == [] ==>
      Contains(text, "NO SANCTIONS MATCH") && Contains(text, query) && Contains(text, PublishDate(doc))
    ensures Search(doc, query, mode, threshold, sc) != [] ==>
      IsPrefix(Warning + " " + CountText(|Search(doc, query, mode, threshold, sc)|), text)
      && Contains(text, query) && Contains(text, PublishDate(doc))
  {
    var ms := Search(doc, query, mode, threshold, sc);
    if ms == [] then
      NoMatchReportMentions(query, mode, PublishDate(doc));
      NoMatchReport(query, mode, PublishDate(doc))
    else
      MatchReportMentions(ms, mode, PublishDate(doc), query);
      MatchReport(ms, mode, PublishDate(doc), query)
  }

  /** The answer to a non-blank query once the download step has run: the failure
      report when it served nothing, the verdict on the served list otherwise. */
  function Respond(query: string, step: Step, mode: Mode, threshold: int, sc: Scorers): (r: Answer)
    ensures r.cache == step.cache
    ensures step.served.Unavailable? ==> r.text == FailureReport(UnavailableText(step.served.cause))
    ensures !step.served.Unavailable? ==> r.text == Verdict(step.served.doc, query, mode, threshold, sc)
  {
    match step.served
    case Unavailable(cause) => Answer(step.cache, FailureReport(UnavailableText(cause)))
    case _ => Answer(step.cache, Verdict(step.served.doc, query, mode, threshold, sc))
  }

  /** One call of `check_ofac(name, fuzzy, threshold)` at time `now`, where `fetch`
      is what a download would bring if one were attempted. */
  function CheckOfac(name: string, mode: Mode, threshold: int, c: CacheState, now: int,
                     fetch: FetchOutcome, sc: Scorers): (r: Answer)
    // a blank query is refused before the list is looked at
    ensures Blank(name) ==> r == Answer(c, BlankQueryError)
    // otherwise the cache moves exactly as one download call moves it
    ensures !Blank(name) ==> r.cache == Download(c, now, fetch).cache
    // without any data the call reports the failure and lists nothing
    ensures !Blank(name) && Download(c, now, fetch).served.Unavailable? ==>
      r.text == FailureReport(UnavailableText(Download(c, now, fetch).served.cause))
    // with data, cached, fresh or stale, the text is the verdict on it for the stripped query
    ensures !Blank(name) && !Download(c, now, fetch).served.Unavailable? ==>
      r.text == Verdict(Download(c, now, fetch).served.doc, Strip(name), mode, threshold, sc)
  {
    if Blank(name) then Answer(c, BlankQueryError)
    else Respond(Strip(name), Download(c, now, fetch), mode, threshold, sc)
  }

  /** The threshold `check_ofac` uses when the caller gives none. */
  const DefaultThreshold: int := 85

  /** `check_ofac(name)`: a fuzzy search at threshold 85. */
  function CheckOfacDefaults(name: string, c: CacheState, now: int, fetch: FetchOutcome, sc: Scorers): (r: Answer)
    ensures Blank(name) ==> r == Answer(c, BlankQueryError)
    ensures !Blank(name) ==> r.cache == Download(c, now, fetch).cache
    ensures !Blank(name) && !Download(c, now, fetch).served.Unavailable? ==>
      r.text == Verdict(Download(c, now, fetch).served.doc, Strip(name), Fuzzy, DefaultThreshold, sc)
  {
    CheckOfac(name, Fuzzy, DefaultThreshold, c, now, fetch, sc)
  }

  /** A blank query gets the same refusal whatever the cache, the clock and the
      network would give, and leaves the cache as it was. */
  lemma BlankQueryIgnoresTheList(name: string, mode: Mode, threshold: int, c1: CacheState, c2: CacheState,
                                 t1: int, t2: int, f1: FetchOutcome, f2: FetchOutcome, sc: Scorers)
    requires Blank(name)
    ensures CheckOfac(name, mode, threshold, c1, t1, f1, sc).text == CheckOfac(name, mode, threshold, c2, t2, f2, sc).text
    ensures CheckOfac(name, mode, threshold, c1, t1, f1, sc).cache == c1
  {
  }

  /** Surrounding whitespace of the query changes nothing. */
  lemma QueryIsStripped(name: string, pad1: string, pad2: string, mode: Mode, threshold: int, c: CacheState,
                        now: int, fetch: FetchOutcome, sc: Scorers)
    requires Blank(pad1) && Blank(pad2)
    ensures CheckOfac(pad1 + name + pad2, mode, threshold, c, now, fetch, sc) == CheckOfac(name, mode, threshold, c, now, fetch, sc)
  {
    BlankPadded(name, pad1, pad2);
    StripPadded(name, pad1, pad2);
  }

  /** With a fresh cache the answer does not depend on the network. */
  lemma FreshCacheAnswersAlone(name: string, mode: Mode, threshold: int, c: CacheState, now: int,
                               f1: FetchOutcome, f2: FetchOutcome, sc: Scorers)
    requires IsFresh(c, now)
    ensures CheckOfac(name, mode, threshold, c, now, f1, sc) == CheckOfac(name, mode, threshold, c, now, f2, sc)
  {
    FreshIgnoresFetch(c, now, f1, f2);
  }

  /** With a fresh cache a non-blank query is answered from the cached list, and the
      cache stays as it is. */
  lemma FreshCacheAnswer(name: string, mode: Mode, threshold: int, c: CacheState, now: int,
                         fetch: FetchOutcome, sc: Scorers)
    requires !Blank(name) && IsFresh(c, now)
    ensures CheckOfac(name, mode, threshold, c, now, fetch, sc)
      == Answer(c, Verdict(c.data.value, Strip(name), mode, threshold, sc))
  {
    FreshIgnoresFetch(c, now, fetch, fetch);
  }

  /** With a fresh cache, a query none of whose matches survive gets the "no match"
      report for the stripped query. */
  lemma FreshCacheNoMatch(name: string, query: string, mode: Mode, threshold: int, c: CacheState, now: int,
                          fetch: FetchOutcome, sc: Scorers)
    requires !Blank(name) && Strip(name) == query && IsFresh(c, now)
    requires Search(c.data.value, query, mode, threshold, sc) == []
    ensures CheckOfac(name, mode, threshold, c, now, fetch, sc)
      == Answer(c, NoMatchReport(query, mode, PublishDate(c.data.value)))
  {
    FreshCacheAnswer(name, mode, threshold, c, now, fetch, sc);
  }

  /** On a cold start an accepted download is cached, stamped with its time, and
      answers the query. */
  lemma ColdStartAnswer(name: string, mode: Mode, threshold: int, now: int, resp: Response, at: int, sc: Scorers)
    requires !Blank(name) && Validate(resp).Ok?
    ensures var doc := resp.parsed.value;
      CheckOfac(name, mode, threshold, EmptyCache, now, Received(resp, at), sc)
        == Answer(CacheState(Some(doc), Some(at)), Verdict(doc, Strip(name), mode, threshold, sc))
  {
  }

  /** Once the list has been loaded, the call never fails: a refused download falls
      back to the list held in the cache. */
  lemma LoadedListAlwaysAnswers(name: string, mode: Mode, threshold: int, c: CacheState, now: int,
                                fetch: FetchOutcome, sc: Scorers)
    requires !Blank(name) && c.data.Some?
    ensures ServedData(Download(c, now, fetch).served).Ok?
    ensures CheckOfac(name, mode, threshold, c, now, fetch, sc).text
      == Verdict(ServedData(Download(c, now, fetch).served).value, Strip(name), mode, threshold, sc)
  {
    LoadedNeverUnavailable(c, now, fetch);
  }
}
