# OFAC sanctions screening, modelled in Dafny

RegGuard screens a name against the U.S. Treasury's OFAC Specially Designated
Nationals (SDN) list. The tool `check_ofac` in `src/regguard/tools/ofac.py` does four
things. This project models each one as pure Dafny functions and proves what the
code promises about it.

1. **Obtain the list.** `download_ofac_sdn_data` keeps a process-wide cache of the
   parsed list. Data younger than a day is served from the cache. Otherwise a
   download is attempted and validated: status 200, an XML or text content type,
   at least 1000 bytes, and a successful parse. A refused download falls back to
   stale data, and the call fails only when there is no data at all. The model makes
   the cache an explicit `CacheState` value. The clock is an integer `now`, and the
   network is a `FetchOutcome` argument (module `Feed`).
2. **Read the entries.** The parsed document is a set of datatypes (module `Sdn`):
   - the entries;
   - their primary and alias names;
   - the program list;
   - `extract_addresses`, which joins the present address components with ", ".
3. **Match.** Each entry is screened under its primary name, then its non-empty
   aliases (module `Matching`).
   - Exact mode is a case-insensitive substring test. The first containing name
     wins, with score 100.
   - Fuzzy mode scores each name as the better of `token_sort_ratio` on the whole
     name and the best `ratio` on a single word. The scorers are arguments.
   - A fuzzy name is kept when it reaches the threshold and strictly beats the
     running best, which starts at 0.
   - The matches are then sorted by score, stably and in descending order.
4. **Report.** A report is one of:
   - the "OFAC SANCTIONS MATCH" report, with up to five blocks;
   - the "NO SANCTIONS MATCH" report;
   - the failure report;
   - the blank-query error.

   A block is built as a list of typed lines and then rendered (module `Report`).
   Module `Ofac` puts the four steps together as `CheckOfac`. Module `Scenarios`
   proves what `CheckOfac` answers for a one-entry list: a misspelt query "Puttin"
   against an entry "Vladimir Putin".

Modules: `Base` (Option, Result), `Text` (Python's `strip`, `lower`, `split`, `in`,
`join`, slicing, `str(int)`), `Sdn`, `Feed`, `Matching`, `Report`, `Ofac`,
`Scenarios`.

## Model

| member | source | states |
|---|---|---|
| Feed.Validate | src/regguard/tools/ofac.py:47-67 | A response is accepted exactly when the status is 200, the lower-cased content type contains "xml" or "text", the body has at least 1000 bytes and it parses. The first failing check names the error, in that order. A response that passes the first three checks but fails to parse is refused with the parser's own error. |
| Feed.Download | src/regguard/tools/ofac.py:30-88 | A fresh cache is served unchanged. The cache changes only on an accepted download, and then data and time change together. A refused download serves the stale data with the cache unchanged. The call is unavailable exactly when nothing was downloaded and there is no data. Whenever stale data is served or the call is unavailable, the cache was not fresh and the reported cause is the error of the download attempt. |
| Feed.FreshIgnoresFetch | src/regguard/tools/ofac.py:31-35 | With data younger than 86400 seconds, the network outcome makes no difference and the cached data is served. |
| Feed.LoadedNeverUnavailable | src/regguard/tools/ofac.py:80-88 | Once data is loaded, every request yields data. Without a new download, that is the cached data. |
| Feed.ColdStart | src/regguard/tools/ofac.py:80-88 | With an empty cache, the call fails exactly when the download is refused. |
| Feed.DownloadKeepsConsistent | src/regguard/tools/ofac.py:69-71 | Data and timestamp are either both set or both unset, across any request. |
| Feed.SecondRequestWithinDayIsCached | src/regguard/tools/ofac.py:30-71 | After an accepted download, a request within a day of it is answered from the cache with the downloaded data, whatever the network does. |
| Feed.CachedStaysCached | src/regguard/tools/ofac.py:31-35 | A cache hit leaves the cache alone, so a later request within the day gets the same answer. |
| Sdn.ExtractAddresses | src/regguard/tools/ofac.py:91-119 | The result has at most one string per address. A string is in the result exactly when some address formats to it. |
| Sdn.SingleAddressIsOneElementList | src/regguard/tools/ofac.py:103-105 | A single address dictionary is read as a one-element list. It yields its rendering, or nothing. |
| Sdn.PresentValuesComeFromFields | src/regguard/tools/ofac.py:109-116 | Every joined part is the value of one of the seven fields. There are no parts exactly when every field is empty, and then the address is dropped. |
| Sdn.PresentValuesKeepsEveryField | src/regguard/tools/ofac.py:111-114 | Every non-empty field value appears among the joined parts. |
| Sdn.FormatAllAppend | src/regguard/tools/ofac.py:107-117 | The loop over addresses works address by address, in order. |
| Sdn.CityAndCountryOnly | src/regguard/tools/ofac.py:111-117 | An address with only a city and a country renders as "city, country". |
| Sdn.PersonNameOfParts | src/regguard/tools/ofac.py:162 | `f"{first} {last}".strip()` is first, a space and last, when neither part has outer whitespace. |
| Sdn.AliasNames | src/regguard/tools/ofac.py:172-175 | A name is an alias name exactly when it is non-empty and some aka's stripped "first last" spells it. Alias names are never empty, and there are no more of them than aka elements. |
| Sdn.AliasNamesAppend | src/regguard/tools/ofac.py:172-175 | The loop over akas works aka by aka, in order: the aliases of two concatenated lists are those of the first, then those of the second. |
| Sdn.CandidateNames | src/regguard/tools/ofac.py:160-175 | The primary name comes first, even when empty. After it come only non-empty names, each spelled by some aka, and every non-empty aka name is among them. There is at most one per aka. |
| Sdn.ProgramOf | src/regguard/tools/ofac.py:216-217 | A dictionary programList yields its `program` value as it is. A dictionary without `program`, and any other shape, yields "Unknown". |
| Text.Strip | src/regguard/tools/ofac.py:136-139 | The stripped text is empty exactly when the text is blank. Otherwise it starts and ends with a non-space. |
| Text.StripPadded | src/regguard/tools/ofac.py:139 | Stripping ignores whitespace added around a text. |
| Text.ContainsIffOccurs | src/regguard/tools/ofac.py:208 | `p in s` holds exactly when `p` occurs in `s` at some position. |
| Text.Words | src/regguard/tools/ofac.py:194 | `split()` yields non-empty, whitespace-free words that together spell the text without its whitespace. |
| Text.WordThenRest | src/regguard/tools/ofac.py:194 | A whitespace-free run ended by whitespace or by the end of the text is one whole word: `split()` neither cuts it nor joins it to what follows. |
| Text.SpaceThenRest | src/regguard/tools/ofac.py:194 | Leading whitespace of any kind yields no word. |
| Text.WordsAppend | src/regguard/tools/ofac.py:194 | Cutting a text just before whitespace cuts its word list at the same place. |
| Text.WordsSplitAtSpace | src/regguard/tools/ofac.py:194 | A whitespace character separates the words before it from the words after it. |
| Text.TwoWords | src/regguard/tools/ofac.py:194 | Two whitespace-free words separated by one space split into exactly those two words. |
| Text.Show | src/regguard/tools/ofac.py:244-248 | `str(n)` of a natural number is a non-empty string of decimal digits, with no leading zero unless the number is 0. |
| Text.ShowValue | src/regguard/tools/ofac.py:244-248 | Reading back the printed digits, most significant first, gives the number again. So "MATCH #i" and "(N% match)" identify i and N. |
| Text.ShowInjective | src/regguard/tools/ofac.py:278 | Different counts print differently, so the header's "N result(s)" determines N. |
| Matching.BestWordScore | src/regguard/tools/ofac.py:195-196 | The best word score bounds every word's ratio and is attained by one of them, or is 0 without words. |
| Matching.NameScoreCoversWords | src/regguard/tools/ofac.py:191-199 | A name scores at least the ratio of each of its words. |
| Matching.ArgMax | src/regguard/tools/ofac.py:187-204 | The reference definition: the earliest position of a best-rated name. |
| Matching.MaxScore | src/regguard/tools/ofac.py:199-204 | The best rating bounds every name's rating and is attained, or is 0 without names. |
| Matching.FuzzyScanFindsEarliestBest | src/regguard/tools/ofac.py:187-204 | The fuzzy loop ends holding the best score and the earliest name attaining it. This holds when that score reaches the threshold and beats the starting value, and otherwise the loop keeps the starting value. |
| Matching.ExactScan | src/regguard/tools/ofac.py:206-212 | The exact loop stops at the first name whose lower-cased form contains the query. It finds nothing exactly when no name does. |
| Matching.ExactHit | src/regguard/tools/ofac.py:206-212 | An exact hit exists exactly when some name contains the query. It has score 100 and the first such name. |
| Matching.FuzzyHit | src/regguard/tools/ofac.py:187-204 | A fuzzy hit exists exactly when the best score reaches the threshold and is positive. It carries that score and the earliest name with it. |
| Matching.MakeMatch | src/regguard/tools/ofac.py:214-235 | The record carries the primary name and the score. The matched name is set exactly when it differs from the primary name. The record keeps the first three aliases, the first two addresses and the entry's program. It also keeps the remarks, defaulting to "", and the uid and type, defaulting to "Unknown". |
| Matching.ExactEntryMatch | src/regguard/tools/ofac.py:206-235 | In exact mode, an entry is reported exactly when one of its names contains the lower-cased query, with score 100. The matched name is the first such name, shown only when it is not the primary name. |
| Matching.ExactMiss | src/regguard/tools/ofac.py:206-214 | An entry none of whose names contains the query is not reported. |
| Matching.FuzzyEntryMatch | src/regguard/tools/ofac.py:187-235 | In fuzzy mode, an entry is reported exactly when its best name score reaches the threshold and is positive. It carries that score, and the matched name is the earliest best name. |
| Matching.EntryMatchScore | src/regguard/tools/ofac.py:201-210 | Exact matches score 100. Fuzzy matches reach the threshold and score above 0. |
| Matching.Screen | src/regguard/tools/ofac.py:156-235 | The matches are exactly the records that some entry produces, and there are no more of them than entries. |
| Matching.ScreenOnePerEntry | src/regguard/tools/ofac.py:156-235 | Each match comes from its own entry, and the matches keep the order of those entries. Every entry that produces a match contributes it, so there is exactly one record per matching entry. |
| Matching.SortByScore | src/regguard/tools/ofac.py:238 | The sorted list is non-increasing in score and a permutation of its input. Matches of each score keep their relative order. |
| Matching.StableOrderIsUnique | src/regguard/tools/ofac.py:238 | Two non-increasing lists with the same matches of every score, in the same order, are equal. |
| Matching.SortIsTheStableSort | src/regguard/tools/ofac.py:238 | Any stable, non-increasing rearrangement equals the sort's result. |
| Matching.Search | src/regguard/tools/ofac.py:146-238 | The result is non-increasing in score. It holds exactly the records the entries produce for the lower-cased query, with scores 100 in exact mode and at or above the threshold and positive in fuzzy mode. It has the same records as the entry-order screen, and the records of each score come in the same order: it is the stable sort of that screen. |
| Matching.FuzzyEntryMonotone | src/regguard/tools/ofac.py:201-204 | A fuzzy match that survives a higher threshold is produced unchanged at a lower one. |
| Matching.SearchMonotoneInThreshold | src/regguard/tools/ofac.py:187-238 | Raising the threshold never adds a fuzzy match: the matches at the higher threshold are a sub-multiset of those at the lower one. |
| Matching.ExactIgnoresThreshold | src/regguard/tools/ofac.py:205-212 | The exact search gives the same result at every threshold. |
| Matching.SearchRecordsCapped | src/regguard/tools/ofac.py:229-232 | Every reported record has at most three aliases and two addresses. |
| Matching.SingleEntrySearch | src/regguard/tools/ofac.py:151-158 | A one-entry list yields that entry's match or nothing. |
| Report.Abbreviate | src/regguard/tools/ofac.py:268-272 | Remarks of up to 200 characters are shown whole. Longer ones become their first 200 characters followed by "...", 203 characters in all. |
| Report.MatchLines | src/regguard/tools/ofac.py:244-274 | A block opens with the rank and primary name. The score is shown exactly in fuzzy mode below 100. Type and program lines follow, and the uid line closes the block. |
| Report.MatchLinesSections | src/regguard/tools/ofac.py:253-272 | A block has a Matched line exactly when a matched name is set, one AKAs line exactly when there are aliases, one line per address, and an abbreviated remarks line exactly when there are remarks. |
| Report.ListsTopFiveRanked | src/regguard/tools/ofac.py:243-248 | At most five blocks are shown, numbered 1, 2, ... in the order of the matches. Each shows a score exactly in fuzzy mode below 100. |
| Report.SearchBlocksAreCapped | src/regguard/tools/ofac.py:229-265 | A block of a search result lists at most two addresses and at most three aliases. |
| Report.BlockText | src/regguard/tools/ofac.py:244-274 | A block's text opens with "MATCH #rank: name". " (N% match)" follows exactly in fuzzy mode below 100. Then come the type and program lines, and the text ends with the UID line. |
| Report.ListingOpens | src/regguard/tools/ofac.py:243-244 | The listing opens with "MATCH #1: " and the primary name of the first match. |
| Report.MatchReportMentions | src/regguard/tools/ofac.py:277-283 | The match report opens with the warning sign, "OFAC SANCTIONS MATCH - N result(s)" (N counts all matches, not just the five listed), " (Fuzzy search)" or " (Exact search)" and a line break, then the "List Published" line with the publication date. It names the query and ends with the listing of the blocks. |
| Report.ListingEnds | src/regguard/tools/ofac.py:243-283 | The listing ends with the UID line of the last listed match: the last match, or the fifth when there are more than five. |
| Report.MatchReportListsBest | src/regguard/tools/ofac.py:243-283 | A non-empty match report contains "MATCH #1: " with the best match's primary name, and ends with the UID line of the last listed match. |
| Report.NoMatchReportMentions | src/regguard/tools/ofac.py:285-291 | The no-match report opens with the check mark, "NO SANCTIONS MATCH", a line break and the "List Published" line with the publication date. It ends with the quoted query's closing quote, " (fuzzy search)" or " (exact search)", and "No matches found on OFAC SDN list.". It names the query. |
| Report.FailureReportNamesReason | src/regguard/tools/ofac.py:293-302 | The failure report opens with the cross mark, "OFAC CHECK FAILED", a line break and "Unable to check sanctions list: " followed by the reason. It ends with "Please try again later.". |
| Ofac.Verdict | src/regguard/tools/ofac.py:241-291 | With no matches the text says "NO SANCTIONS MATCH". With matches it opens with "OFAC SANCTIONS MATCH - N result(s)" for the number N of all matches. Either way it names the query and the publication date. |
| Ofac.CheckOfac | src/regguard/tools/ofac.py:136-302 | A blank query gets the error text with the cache untouched. Otherwise the cache moves as one download call moves it. Without data the text is the failure report. With data, whether fresh, just downloaded or stale, the text is the verdict on that data for the stripped query. |
| Ofac.CheckOfacDefaults | src/regguard/tools/ofac.py:123 | Called with the name alone, the check is a fuzzy search at threshold 85. |
| Ofac.ColdStartAnswer | src/regguard/tools/ofac.py:31-78 | On a cold start, an accepted download is cached with its time and answers the query. |
| Ofac.BlankQueryIgnoresTheList | src/regguard/tools/ofac.py:136-137 | A blank query's answer does not depend on the cache, the clock or the network. |
| Ofac.QueryIsStripped | src/regguard/tools/ofac.py:136-139 | Whitespace around the query changes nothing. |
| Ofac.FreshCacheAnswersAlone | src/regguard/tools/ofac.py:31-35 | With a fresh cache the answer does not depend on the network. |
| Ofac.FreshCacheAnswer | src/regguard/tools/ofac.py:141-143 | With a fresh cache, a non-blank query is answered from the cached list, with the cache unchanged. |
| Ofac.FreshCacheNoMatch | src/regguard/tools/ofac.py:285-291 | With a fresh cache and no matches, the answer is the no-match report for the stripped query. |
| Ofac.LoadedListAlwaysAnswers | src/regguard/tools/ofac.py:80-88 | Once the list is loaded, the call always answers with a verdict on some list, never with the failure report. |
| Scenarios.PutinNames | src/regguard/tools/ofac.py:160-175 | The sample entry is screened as "Vladimir Putin", then "Vladimir Putinn". |
| Scenarios.ExactPuttinFindsNothing | src/regguard/tools/ofac.py:206-212 | An exact search for "Puttin" finds nothing, because "puttin" is a substring of neither lower-cased name. |
| Scenarios.FuzzyPuttinFindsPutin | src/regguard/tools/ofac.py:331 | At threshold 80, with a word scorer rating "putin" at least 80 against "puttin", the fuzzy search reports the entry under its primary name. |
| Scenarios.ExactPuttinAnswer | src/regguard/tools/ofac.py:285-291 | With the list cached, an exact search for "  Puttin " answers with the no-match report for "Puttin" and leaves the cache alone. |
| Scenarios.FuzzyPuttinAnswer | src/regguard/tools/ofac.py:241-283 | With the list cached, a fuzzy search for "  Puttin " at threshold 80 (the scorer rating "putin" at least 80 against "puttin") answers with the match report. It opens with "OFAC SANCTIONS MATCH - 1 result(s) (Fuzzy search)" and the date line, contains "MATCH #1: Vladimir Putin", ends with "  UID: U1", and leaves the cache alone. |

## Behaviour worth noting

- A fuzzy score of 0 never matches, even at threshold 0. The running best starts at 0
  and a name must beat it strictly (line 201).
- The program value is shown as decoded (line 217). A single label is not turned into
  a list.
- Concurrent refreshes are not coalesced. There is no lock around the download.

## Left out

- The HTTP request, its timeout and redirects are not modelled. A `FetchOutcome`
  stands for them: either a response with status, content type, body length and
  parse result, or a transport error before any response.
- xmltodict is not modelled. The parsed document is given directly as datatypes.
  Three things follow from that:
  - an empty XML element decodes to `None`, which the model cannot represent
    because a field is `Option<string>` and `None` there means "absent". When the
    `None` sits inside a nested dictionary, `.get` on it raises. When it is a text
    field, Python goes on and prints the word "None": `<firstName/>` gives the name
    "None Putin" (lines 162 and 173), and `<sdnType/>` prints "Type: None" (line
    250). The model reads such a field as absent instead: the empty string in a
    name, "Unknown" for the type;
  - an entry malformed in a way that raises inside the matching loop is not
    represented either, so the catch-all at lines 293-302 is reached only through a
    download failure;
  - `Sdn.Document` without `sdnList` reads as no entries and the date "Unknown".
- Matching.NameScore: the rapidfuzz scorers are arguments returning integers from 0
  to 100. rapidfuzz returns floating-point scores, so the "(N% match)" text of a
  fractional score prints a decimal that `Text.Show` does not produce.
- Text.Lower and Text.Strip: lower-casing and whitespace are ASCII only. Python's
  Unicode case mapping and whitespace table are not modelled.
- Feed.Download: an empty parsed dictionary is falsy in Python, so an empty cached
  document would count as missing. The model treats any stored document as present.
- Report.ShowProgram: a repeated program element prints as a Python list repr. The
  model quotes each label but does not escape quotes inside labels.
- The print logging, the emoji printed to the console, `datetime.now()`, the async
  and `@tool` plumbing, and concurrency are not modelled. The clock is an integer
  argument.
- The commented-out test driver at lines 305-355 is not modelled. Its "Puttin" cases
  appear in `Scenarios` as properties.
