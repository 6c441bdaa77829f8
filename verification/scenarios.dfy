/** The screening of a one-entry list holding "Vladimir Putin", also known as
    "Vladimir Putinn", for the misspelt query "Puttin". */
module Scenarios {
  import opened Base
  import opened Text
  import opened Sdn
  import opened Feed
  import opened Matching
  import opened Report
  import opened Ofac

  const PutinEntry := Entry(
    Some("U1"), Some("Individual"), Some("Vladimir"), Some("Putin"),
    One(Aka(Some("Vladimir"), Some("Putinn"))),
    Listing(Some(Label("RUSSIA-EO14024"))),
    Many([]),
    None)

  const PutinList := Document(Many([PutinEntry]), Some("01/02/2024"))

  lemma PutinPrimaryName()
    ensures PrimaryName(PutinEntry) == "Vladimir Putin"
  {
    PersonNameOfParts("Vladimir", "Putin");
  }

  lemma PutinAliasNames()
    ensures AliasNames(Items(PutinEntry.akas)) == ["Vladimir Putinn"]
  {
    PersonNameOfParts("Vladimir", "Putinn");
    assert "Vladimir" + " " + "Putinn" == "Vladimir Putinn";
    var aka := Aka(Some("Vladimir"), Some("Putinn"));
    assert Items(PutinEntry.akas) == [aka];
    AliasNamesSingle(aka);
  }

  /** The entry is screened under its primary name, then its one alias. */
  lemma PutinNames()
    ensures CandidateNames(PutinEntry) == ["Vladimir Putin", "Vladimir Putinn"]
  {
    PutinPrimaryName();
    PutinAliasNames();
  }

  lemma PuttinLower(s: string)
    requires s == "Puttin"
    ensures Lower(s) == "puttin"
  {
  }

  lemma PutinLower(s1: string, s2: string)
    requires s1 == "Vladimir Putin" && s2 == "Vladimir Putinn"
    ensures Lower(s1) == "vladimir putin" && Lower(s2) == "vladimir putinn"
  {
  }

  /** "vladimir putin" does not contain "puttin": its only "p" is too close to its end. */
  lemma PuttinNotInPutin(s: string, p: string)
    requires s == "vladimir putin" && p == "puttin"
    ensures !Contains(s, p)
  {
    ContainsIffOccurs(s, p);
    forall k: int ensures !OccursAt(s, p, k) {
      if 0 <= k <= |s| - |p| {
        assert s[k..k + |p|][0] == s[k];
      }
    }
  }

  /** "vladimir putinn" does not contain "puttin": its "p" is followed by "uti". */
  lemma PuttinNotInPutinn(s: string, p: string)
    requires s == "vladimir putinn" && p == "puttin"
    ensures !Contains(s, p)
  {
    ContainsIffOccurs(s, p);
    forall k: int ensures !OccursAt(s, p, k) {
      if 0 <= k <= |s| - |p| {
        assert s[k..k + |p|][0] == s[k];
        assert s[k..k + |p|][3] == s[k + 3];
      }
    }
  }

  /** Exact search: "puttin" is a substring of neither name, so nothing matches. */
  lemma ExactPuttinFindsNothing(threshold: int, sc: Scorers)
    ensures Search(PutinList, "Puttin", Exact, threshold, sc) == []
  {
    PuttinLower("Puttin");
    PutinExactMiss("puttin", threshold, sc);
    SingleEntrySearch(PutinList, PutinEntry, "Puttin", Exact, threshold, sc);
  }

  lemma PutinExactMiss(q: string, threshold: int, sc: Scorers)
    requires q == "puttin"
    ensures EntryMatch(PutinEntry, q, Exact, threshold, sc).None?
  {
    PutinNames();
    PutinNamesMiss(CandidateNames(PutinEntry), q);
    ExactMiss(PutinEntry, q, threshold, sc);
  }

  /** Neither name, lower-cased, contains "puttin". */
  lemma PutinNamesMiss(names: seq<string>, q: string)
    requires names == ["Vladimir Putin", "Vladimir Putinn"] && q == "puttin"
    ensures forall i :: 0 <= i < |names| ==> !Contains(Lower(names[i]), q)
  {
    PutinLower(names[0], names[1]);
    PuttinNotInPutin(Lower(names[0]), q);
    PuttinNotInPutinn(Lower(names[1]), q);
  }

  lemma PutinWords(s: string)
    requires s == "vladimir putin"
    ensures Words(s) == ["vladimir", "putin"]
  {
    assert s == "vladimir" + " " + "putin";
    TwoWords("vladimir", "putin");
  }

  /** The primary name alone already scores at least what the scorer gives "putin". */
  lemma PutinScore(q: string, sc: Scorers)
    requires q == "puttin"
    ensures MaxScore(CandidateNames(PutinEntry), Rating(q, sc)) >= sc.ratio(q, "putin")
  {
    PutinNames();
    var names := CandidateNames(PutinEntry);
    var primary := names[0];
    assert primary == "Vladimir Putin";
    PutinLower(primary, "Vladimir Putinn");
    PutinWords(Lower(primary));
    NameScoreCoversWords(q, primary, 1, sc);
  }

  lemma PutinFuzzyHit(q: string, sc: Scorers)
    requires q == "puttin" && sc.ratio(q, "putin") >= 80
    ensures var m := EntryMatch(PutinEntry, q, Fuzzy, 80, sc);
      m.Some? && m.value.uid == "U1" && m.value.score >= 80 && m.value.name == "Vladimir Putin"
  {
    PutinScore(q, sc);
    PutinPrimaryName();
    FuzzyEntryMatch(PutinEntry, q, 80, sc);
  }

  /** Fuzzy search at threshold 80, with a word scorer that rates "putin" at least 80
      against "puttin": the one entry is reported, with its uid and a score of at
      least 80. */
  lemma FuzzyPuttinFindsPutin(sc: Scorers)
    requires sc.ratio("puttin", "putin") >= 80
    ensures var r := Search(PutinList, "Puttin", Fuzzy, 80, sc);
      |r| == 1 && r[0].uid == "U1" && r[0].score >= 80 && r[0].name == "Vladimir Putin"
  {
    PuttinLower("Puttin");
    PutinFuzzyHit("puttin", sc);
    SingleEntrySearch(PutinList, PutinEntry, "Puttin", Fuzzy, 80, sc);
  }

  /** The query as typed, with stray spaces around it. */
  lemma PaddedQuery(pad1: string, word: string, pad2: string)
    requires pad1 == "  " && word == "Puttin" && pad2 == " "
    ensures !Blank(pad1 + word + pad2) && Strip(pad1 + word + pad2) == word
  {
    assert Blank(pad1) && Blank(pad2) && !IsSpace(word[0]) && !IsSpace(word[|word| - 1]);
    BlankPadded(word, pad1, pad2);
    StripPadded(word, pad1, pad2);
    StripUnpadded(word);
  }

  /** End to end, with the list already cached for the day: the exact search for
      "  Puttin " answers with the "no match" report for "Puttin" and leaves the
      cache alone. */
  lemma ExactPuttinAnswer(pad1: string, query: string, pad2: string, threshold: int, now: int,
                          fetch: FetchOutcome, sc: Scorers)
    requires pad1 == "  " && query == "Puttin" && pad2 == " "
    ensures var c := CacheState(Some(PutinList), Some(now));
      CheckOfac(pad1 + query + pad2, Exact, threshold, c, now, fetch, sc)
        == Answer(c, NoMatchReport(query, Exact, PublishDate(PutinList)))
  {
    var c := CacheState(Some(PutinList), Some(now));
    PaddedQuery(pad1, query, pad2);
    ExactPuttinFindsNothing(threshold, sc);
    FreshCacheNoMatch(pad1 + query + pad2, query, Exact, threshold, c, now, fetch, sc);
  }

  /** End to end, with the list already cached for the day: the fuzzy search for
      "  Puttin " at threshold 80 answers with the match report, which counts one
      result, names "Vladimir Putin" as match #1, ends with its uid "U1", and leaves
      the cache alone. */
  lemma FuzzyPuttinAnswer(pad1: string, query: string, pad2: string, now: int,
                          fetch: FetchOutcome, sc: Scorers)
    requires pad1 == "  " && query == "Puttin" && pad2 == " "
    requires sc.ratio("puttin", "putin") >= 80
    ensures var c := CacheState(Some(PutinList), Some(now));
      var a := CheckOfac(pad1 + query + pad2, Fuzzy, 80, c, now, fetch, sc);
      && a.cache == c
      && IsPrefix(Opening(1) + " (" + ModeName(Fuzzy) + " search)\n" + DateLine(PublishDate(PutinList)), a.text)
      && Contains(a.text, "MATCH #1: " + "Vladimir Putin")
      && IsSuffix("  UID: " + "U1", a.text)
  {
    var c := CacheState(Some(PutinList), Some(now));
    PaddedQuery(pad1, query, pad2);
    FuzzyPuttinFindsPutin(sc);
    var ms := Search(PutinList, query, Fuzzy, 80, sc);
    FreshCacheAnswer(pad1 + query + pad2, Fuzzy, 80, c, now, fetch, sc);
    var date := PublishDate(PutinList);
    assert Verdict(PutinList, query, Fuzzy, 80, sc) == MatchReport(ms, Fuzzy, date, query);
    MatchReportMentions(ms, Fuzzy, date, query);
    MatchReportListsBest(ms, Fuzzy, date, query);
  }
}
