/** The match engine of `check_ofac`: the per-entry scan over candidate names in
    exact or fuzzy mode, the match record kept for each hit, and the stable sort by
    score. The similarity scorers are arguments. */
module Matching {
  import opened Base
  import opened Text
  import opened Sdn

  /** A similarity score. */
  type Score = x: int | 0 <= x <= 100

  /** The two similarity functions of the fuzzy-matching library, seen only through
      their signatures: `token_sort_ratio` on whole names and `ratio` on words. */
  datatype Scorers = Scorers(tokenSortRatio: (string, string) -> Score, ratio: (string, string) -> Score)

  /** The `fuzzy` flag of `check_ofac`. */
  datatype Mode = Exact | Fuzzy

  function Max(a: Score, b: Score): Score {
    if a >= b then a else b
  }

  // ---------------------------------------------------------------- fuzzy scores

  /** `max(ratio(q, w) for w in words)`, or 0 without words. */
  function BestWordScore(q: string, words: seq<string>, sc: Scorers): (s: Score)
    ensures forall k :: 0 <= k < |words| ==> sc.ratio(q, words[k]) <= s
    ensures words == [] ==> s == 0
    ensures words != [] ==> exists k :: 0 <= k < |words| && sc.ratio(q, words[k]) == s
  {
    if words == [] then 0
    else
      var rest := BestWordScore(q, words[1..], sc);
      assert forall k :: 1 <= k < |words| ==> words[k] == words[1..][k - 1];
      Max(sc.ratio(q, words[0]), rest)
  }

  /** The score of one candidate name against the lower-cased query: the better of
      the whole-name token-sort score and the best single-word score. */
  function NameScore(q: string, name: string, sc: Scorers): Score {
    var lowered := Lower(name);
    Max(sc.tokenSortRatio(q, lowered), BestWordScore(q, Words(lowered), sc))
  }

  /** The name score against a fixed query, as a function of the name alone: what
      the fuzzy loop below compares. */
  function Rating(q: string, sc: Scorers): string -> Score {
    name => NameScore(q, name, sc)
  }

  /** A name scores at least as well as any of its words does on its own. */
  lemma NameScoreCoversWords(q: string, name: string, k: nat, sc: Scorers)
    requires k < |Words(Lower(name))|
    ensures Rating(q, sc)(name) >= sc.ratio(q, Words(Lower(name))[k])
  {
  }

  /** `i` is the earliest position of a name with the highest rating. */
  predicate FirstBest(names: seq<string>, rate: string -> Score, i: int) {
    && 0 <= i < |names|
    && (forall j :: 0 <= j < |names| ==> rate(names[j]) <= rate(names[i]))
    && (forall j :: 0 <= j < i ==> rate(names[j]) < rate(names[i]))
  }

  /** The earliest best-rated name: a reference definition independent of the
      order in which the source's loop visits names. */
  function ArgMax(names: seq<string>, rate: string -> Score): (i: nat)
    requires |names| > 0
    ensures FirstBest(names, rate, i)
  {
    if |names| == 1 then 0
    else
      var k := ArgMax(names[1..], rate);
      FirstBestCons(names, rate, k);
      if rate(names[0]) >= rate(names[1..][k]) then 0 else k + 1
  }

  /** The earliest best name of a list, from the earliest best name `k` of its tail. */
  lemma FirstBestCons(names: seq<string>, rate: string -> Score, k: int)
    requires |names| > 1 && FirstBest(names[1..], rate, k)
    ensures rate(names[0]) >= rate(names[1..][k]) ==> FirstBest(names, rate, 0)
    ensures rate(names[0]) < rate(names[1..][k]) ==> FirstBest(names, rate, k + 1)
  {
    assert forall j :: 1 <= j < |names| ==> names[j] == names[1..][j - 1];
  }

  /** The highest rating of any name, 0 when there is none. */
  function MaxScore(names: seq<string>, rate: string -> Score): (m: Score)
    ensures forall j :: 0 <= j < |names| ==> rate(names[j]) <= m
    ensures names != [] ==> exists j :: 0 <= j < |names| && rate(names[j]) == m
    ensures names == [] ==> m == 0
  {
    if names == [] then 0 else rate(names[ArgMax(names, rate)])
  }

  /** The name kept so far, if any, and its score. */
  datatype Hit = Hit(score: Score, name: string)

  /** The running `match_score`: 0 until some name is kept. */
  function Running(acc: Option<Hit>): Score {
    match acc
    case Some(h) => h.score
    case None => 0
  }

  /** The fuzzy loop of `check_ofac`, name by name: a name replaces the one kept so
      far only when its score reaches the threshold AND strictly beats the running
      score. */
  function FuzzyScan(names: seq<string>, threshold: int, rate: string -> Score, acc: Option<Hit>): Option<Hit> {
    if names == [] then acc
    else
      var s := rate(names[0]);
      var next := if s >= threshold && s > Running(acc) then Some(Hit(s, names[0])) else acc;
      FuzzyScan(names[1..], threshold, rate, next)
  }

  lemma MaxScoreCons(names: seq<string>, rate: string -> Score)
    requires |names| > 1
    ensures MaxScore(names, rate) == Max(rate(names[0]), MaxScore(names[1..], rate))
  {
    var m' := MaxScore(names[1..], rate);
    assert forall j :: 1 <= j < |names| ==> names[j] == names[1..][j - 1];
    var j :| 0 <= j < |names[1..]| && rate(names[1..][j]) == m';
    assert rate(names[j + 1]) == m';
  }

  /** Unfolding the reference: the first name is the earliest best exactly when no
      later name beats it. */
  lemma ArgMaxCons(names: seq<string>, rate: string -> Score)
    requires |names| > 1
    ensures ArgMax(names, rate) ==
      if rate(names[0]) >= MaxScore(names[1..], rate) then 0 else ArgMax(names[1..], rate) + 1
  {
  }

  /** What the loop ends with, in terms of the reference definitions. */
  function ScanOutcome(names: seq<string>, threshold: int, rate: string -> Score, acc: Option<Hit>): Option<Hit> {
    if names != [] && MaxScore(names, rate) >= threshold && MaxScore(names, rate) > Running(acc)
    then Some(Hit(MaxScore(names, rate), names[ArgMax(names, rate)]))
    else acc
  }

  /** One step of the loop: the outcome over a list is the outcome over its tail,
      started from what the first name leaves. */
  lemma ScanOutcomeCons(names: seq<string>, threshold: int, rate: string -> Score, acc: Option<Hit>)
    requires |names| > 0
    ensures var s := rate(names[0]);
      var next := if s >= threshold && s > Running(acc) then Some(Hit(s, names[0])) else acc;
      ScanOutcome(names, threshold, rate, acc) == ScanOutcome(names[1..], threshold, rate, next)
  {
    if |names| > 1 {
      MaxScoreCons(names, rate);
      ArgMaxCons(names, rate);
    }
  }

  /** The loop keeps the earliest name of highest score, provided that score reaches
      the threshold and beats what was kept before the loop; otherwise it keeps what
      it started with. Ties therefore keep the earlier name. */
  lemma {:induction false} FuzzyScanFindsEarliestBest(names: seq<string>, threshold: int, rate: string -> Score, acc: Option<Hit>)
    ensures FuzzyScan(names, threshold, rate, acc) == ScanOutcome(names, threshold, rate, acc)
    decreases |names|
  {
    if names != [] {
      var s := rate(names[0]);
      var next := if s >= threshold && s > Running(acc) then Some(Hit(s, names[0])) else acc;
      FuzzyScanFindsEarliestBest(names[1..], threshold, rate, next);
      ScanOutcomeCons(names, threshold, rate, acc);
    }
  }

  // ---------------------------------------------------------------- exact scan

  /** `i` is the earliest name whose lower-cased form contains the query. */
  predicate FirstContaining(q: string, names: seq<string>, i: int) {
    && 0 <= i < |names|
    && Contains(Lower(names[i]), q)
    && forall j :: 0 <= j < i ==> !Contains(Lower(names[j]), q)
  }

  /** The exact loop of `check_ofac`: stop at the first name containing the query. */
  function ExactScan(q: string, names: seq<string>): (r: Option<nat>)
    ensures r.Some? ==> FirstContaining(q, names, r.value)
    ensures r.None? ==> forall j :: 0 <= j < |names| ==> !Contains(Lower(names[j]), q)
  {
    if names == [] then None
    else if Contains(Lower(names[0]), q) then Some(0)
    else
      var rest := ExactScan(q, names[1..]);
      assert forall j :: 1 <= j < |names| ==> names[j] == names[1..][j - 1];
      match rest
      case Some(i) => Some(i + 1)
      case None => None
  }

  /** The hit one entry's names give in the chosen mode, if any. */
  function NameHit(q: string, names: seq<string>, mode: Mode, threshold: int, sc: Scorers): Option<Hit> {
    match mode
    case Exact =>
      (match ExactScan(q, names)
       case Some(i) => Some(Hit(100, names[i]))
       case None => None)
    case Fuzzy =>
      FuzzyScan(names, threshold, Rating(q, sc), None)
  }

  /** Exact mode hits exactly when some name contains the query, with score 100 and
      the first such name. */
  lemma ExactHit(q: string, names: seq<string>, threshold: int, sc: Scorers)
    ensures var h := NameHit(q, names, Exact, threshold, sc);
      && (h.Some? <==> exists i :: 0 <= i < |names| && Contains(Lower(names[i]), q))
      && (h.Some? ==> h.value.score == 100 && exists i :: FirstContaining(q, names, i) && names[i] == h.value.name)
  {
  }

  /** Fuzzy mode hits exactly when the best score reaches the threshold and is
      positive, with that score and the earliest name reaching it. */
  lemma FuzzyHit(q: string, names: seq<string>, threshold: int, sc: Scorers)
    ensures var h := NameHit(q, names, Fuzzy, threshold, sc);
      var best := MaxScore(names, Rating(q, sc));
      && (h.Some? <==> best >= threshold && best > 0)
      && (h.Some? ==> h.value.score == best && exists i :: FirstBest(names, Rating(q, sc), i) && names[i] == h.value.name)
  {
    FuzzyScanFindsEarliestBest(names, threshold, Rating(q, sc), None);
  }

  // ---------------------------------------------------------------- match records

  /** The dictionary appended to `matches` for an entry that matched. */
  datatype Match = Match(
    name: string,
    matchedName: Option<string>,
    score: Score,
    aliases: seq<string>,
    sdnType: string,
    program: Program,
    addresses: seq<string>,
    remarks: string,
    uid: string)

  /** The record kept for a hit: the matched name only when it differs from the
      primary name, the first three aliases, the first two addresses, the program,
      the remarks ("" when absent), and the type and uid ("Unknown" when absent). */
  function MakeMatch(e: Entry, hit: Hit): (m: Match)
    ensures m.name == PrimaryName(e) && m.score == hit.score
    ensures m.matchedName.Some? <==> hit.name != PrimaryName(e)
    ensures m.matchedName.Some? ==> m.matchedName.value == hit.name
    ensures var akas := AliasNames(Items(e.akas));
      |m.aliases| == (if |akas| <= 3 then |akas| else 3) && m.aliases == akas[..|m.aliases|]
    ensures var addrs := ExtractAddresses(e.addresses);
      |m.addresses| == (if |addrs| <= 2 then |addrs| else 2) && m.addresses == addrs[..|m.addresses|]
    ensures m.uid == e.uid.GetOr(Unknown) && m.sdnType == e.sdnType.GetOr(Unknown)
    ensures m.program == ProgramOf(e) && m.remarks == e.remarks.GetOr("")
  {
    var primary := PrimaryName(e);
    var names := CandidateNames(e);
    Match(
      primary,
      if hit.name != primary then Some(hit.name) else None,
      hit.score,
      Take(names[1..], 3),
      e.sdnType.GetOr(Unknown),
      ProgramOf(e),
      Take(ExtractAddresses(e.addresses), 2),
      e.remarks.GetOr(""),
      e.uid.GetOr(Unknown))
  }

  /** What one entry contributes to `matches` for the lower-cased query `q`. */
  function EntryMatch(e: Entry, q: string, mode: Mode, threshold: int, sc: Scorers): Option<Match> {
    match NameHit(q, CandidateNames(e), mode, threshold, sc)
    case Some(h) => Some(MakeMatch(e, h))
    case None => None
  }

  /** Exact mode: an entry matches exactly when one of its candidate names contains
      the lower-cased query, with score 100 and the first such name as the matched one. */
  lemma ExactEntryMatch(e: Entry, q: string, threshold: int, sc: Scorers)
    ensures var r := EntryMatch(e, q, Exact, threshold, sc);
      && (r.Some? <==> exists i :: 0 <= i < |CandidateNames(e)| && Contains(Lower(CandidateNames(e)[i]), q))
      && (r.Some? ==> r.value.score == 100 && r.value.name == PrimaryName(e))
      && (r.Some? ==> exists i :: (FirstContaining(q, CandidateNames(e), i) &&
            r.value.matchedName == if i == 0 || CandidateNames(e)[i] == PrimaryName(e) then None else Some(CandidateNames(e)[i])))
  {
    var names := CandidateNames(e);
    ExactHit(q, names, threshold, sc);
    var h := NameHit(q, names, Exact, threshold, sc);
    if h.Some? {
      var i :| FirstContaining(q, names, i) && names[i] == h.value.name;
      var m := MakeMatch(e, h.value);
      assert EntryMatch(e, q, Exact, threshold, sc) == Some(m);
      assert m.matchedName == if i == 0 || names[i] == PrimaryName(e) then None else Some(names[i]);
    }
  }

  /** Exact mode: an entry none of whose names contains the query is not reported. */
  lemma ExactMiss(e: Entry, q: string, threshold: int, sc: Scorers)
    requires forall i :: 0 <= i < |CandidateNames(e)| ==> !Contains(Lower(CandidateNames(e)[i]), q)
    ensures EntryMatch(e, q, Exact, threshold, sc).None?
  {
    ExactEntryMatch(e, q, threshold, sc);
  }

  /** Fuzzy mode: an entry matches exactly when the best score of its names reaches
      the threshold and is positive; it is reported with that score and the earliest
      name reaching it. */
  lemma FuzzyEntryMatch(e: Entry, q: string, threshold: int, sc: Scorers)
    ensures var r := EntryMatch(e, q, Fuzzy, threshold, sc);
      var best := MaxScore(CandidateNames(e), Rating(q, sc));
      && (r.Some? <==> best >= threshold && best > 0)
      && (r.Some? ==> r.value.score == best && r.value.name == PrimaryName(e))
      && (r.Some? ==> exists i :: (FirstBest(CandidateNames(e), Rating(q, sc), i) &&
            r.value.matchedName == if i == 0 || CandidateNames(e)[i] == PrimaryName(e) then None else Some(CandidateNames(e)[i])))
  {
    var names := CandidateNames(e);
    FuzzyHit(q, names, threshold, sc);
    var h := NameHit(q, names, Fuzzy, threshold, sc);
    if h.Some? {
      var i :| FirstBest(names, Rating(q, sc), i) && names[i] == h.value.name;
      var m := MakeMatch(e, h.value);
      assert EntryMatch(e, q, Fuzzy, threshold, sc) == Some(m);
      assert m.matchedName == if i == 0 || names[i] == PrimaryName(e) then None else Some(names[i]);
    }
  }

  /** The values `f` yields over `xs`, in order, skipping `None`. */
  function Collect<A(!new), B(!new)>(xs: seq<A>, f: A -> Option<B>): (r: seq<B>)
    ensures |r| <= |xs|
    ensures forall y :: y in r <==> exists x :: x in xs && f(x) == Some(y)
  {
    if xs == [] then []
    else
      var head := match f(xs[0]) case Some(y) => [y] case None => [];
      var rest := Collect(xs[1..], f);
      assert forall x :: x in xs ==> x == xs[0] || x in xs[1..];
      head + rest
  }

  /** `idx` gives, for each value of `r`, a position of `xs` at which `f` yields it;
      the positions strictly increase, so no position serves twice. */
  ghost predicate Traces<A, B>(xs: seq<A>, f: A -> Option<B>, r: seq<B>, idx: seq<nat>) {
    && |idx| == |r|
    && (forall k :: 0 <= k < |idx| ==> idx[k] < |xs| && f(xs[idx[k]]) == Some(r[k]))
    && (forall k, l :: 0 <= k < l < |idx| ==> idx[k] < idx[l])
  }

  /** Every position of `xs` at which `f` yields a value is among `idx`. */
  ghost predicate Covers<A, B>(xs: seq<A>, f: A -> Option<B>, idx: seq<nat>) {
    forall i :: 0 <= i < |xs| && f(xs[i]).Some? ==> i in idx
  }

  function Shift(idx: seq<nat>): (r: seq<nat>)
    ensures |r| == |idx| && forall k :: 0 <= k < |idx| ==> r[k] == idx[k] + 1
  {
    seq(|idx|, k requires 0 <= k < |idx| => idx[k] + 1)
  }

  lemma TracesStep<A, B>(xs: seq<A>, f: A -> Option<B>, r: seq<B>, idx: seq<nat>)
    requires xs != [] && Traces(xs[1..], f, r, idx)
    ensures f(xs[0]).Some? ==> Traces(xs, f, [f(xs[0]).value] + r, [0] + Shift(idx))
    ensures f(xs[0]).None? ==> Traces(xs, f, r, Shift(idx))
  {
    assert forall k :: 0 <= k < |idx| ==> xs[idx[k] + 1] == xs[1..][idx[k]];
  }

  lemma CoversStep<A, B>(xs: seq<A>, f: A -> Option<B>, idx: seq<nat>)
    requires xs != [] && Covers(xs[1..], f, idx)
    ensures f(xs[0]).Some? ==> Covers(xs, f, [0] + Shift(idx))
    ensures f(xs[0]).None? ==> Covers(xs, f, Shift(idx))
  {
    forall i | 0 < i < |xs| && f(xs[i]).Some? ensures i in Shift(idx) {
      assert xs[1..][i - 1] == xs[i];
      var k :| 0 <= k < |idx| && idx[k] == i - 1;
      assert Shift(idx)[k] == i;
    }
  }

  /** Where each collected value comes from: strictly increasing positions of `xs`
      at which `f` yielded the collected values, in order, and every position at
      which `f` yields a value is one of them. */
  function Origins<A(!new), B(!new)>(xs: seq<A>, f: A -> Option<B>): (idx: seq<nat>)
    ensures Traces(xs, f, Collect(xs, f), idx)
    ensures Covers(xs, f, idx)
  {
    if xs == [] then []
    else
      var rest := Origins(xs[1..], f);
      TracesStep(xs, f, Collect(xs[1..], f), rest);
      CoversStep(xs, f, rest);
      CollectCons(xs, f);
      if f(xs[0]).Some? then [0] + Shift(rest) else Shift(rest)
  }

  lemma CollectCons<A(!new), B(!new)>(xs: seq<A>, f: A -> Option<B>)
    requires xs != []
    ensures f(xs[0]).Some? ==> Collect(xs, f) == [f(xs[0]).value] + Collect(xs[1..], f)
    ensures f(xs[0]).None? ==> Collect(xs, f) == Collect(xs[1..], f)
  {
  }

  /** The loop over entries: the matches, in entry order, one at most per entry. */
  function Screen(entries: seq<Entry>, q: string, mode: Mode, threshold: int, sc: Scorers): (r: seq<Match>)
    ensures |r| <= |entries|
    ensures forall m :: m in r <==> exists e :: e in entries && EntryMatch(e, q, mode, threshold, sc) == Some(m)
  {
    Collect(entries, e => EntryMatch(e, q, mode, threshold, sc))
  }

  /** Each match of the screen comes from its own entry, the matches come in the
      order of the entries that produced them, and every entry that produces a
      match contributes it: one record per matching entry, in entry order. */
  lemma ScreenOnePerEntry(entries: seq<Entry>, q: string, mode: Mode, threshold: int, sc: Scorers)
    ensures var origin := Origins(entries, e => EntryMatch(e, q, mode, threshold, sc));
      var r := Screen(entries, q, mode, threshold, sc);
      && |origin| == |r|
      && (forall k :: 0 <= k < |r| ==> origin[k] < |entries| && EntryMatch(entries[origin[k]], q, mode, threshold, sc) == Some(r[k]))
      && (forall k, l :: 0 <= k < l < |r| ==> origin[k] < origin[l])
      && (forall i :: 0 <= i < |entries| && EntryMatch(entries[i], q, mode, threshold, sc).Some? ==> i in origin)
  {
  }

  // ---------------------------------------------------------------- stable sort

  predicate NonIncreasing(ms: seq<Match>) {
    forall i, j :: 0 <= i < j < |ms| ==> ms[i].score >= ms[j].score
  }

  /** The matches of score `k`, in order. A sort is stable when it keeps this
      subsequence for every `k`. */
  function WithScore(ms: seq<Match>, k: int): seq<Match> {
    if ms == [] then [] else (if ms[0].score == k then [ms[0]] else []) + WithScore(ms[1..], k)
  }

  lemma {:induction false} WithScoreAppend(a: seq<Match>, b: seq<Match>, k: int)
    ensures WithScore(a + b, k) == WithScore(a, k) + WithScore(b, k)
    decreases |a|
  {
    if a == [] {
      assert a + b == b;
    } else {
      WithScoreAppend(a[1..], b, k);
      assert a == [a[0]] + a[1..];
      assert a + b == [a[0]] + (a[1..] + b);
      WithScoreCons(a[0], a[1..] + b, k);
      WithScoreCons(a[0], a[1..], k);
    }
  }

  /** Two neighbours of different scores can trade places without changing any
      `WithScore` subsequence. */
  lemma SwapDifferentScores(x: Match, y: Match, rest: seq<Match>, k: int)
    requires x.score != y.score
    ensures WithScore([x, y] + rest, k) == WithScore([y, x] + rest, k)
  {
    assert ([x, y] + rest)[1..] == [y] + rest;
    assert ([y] + rest)[1..] == rest;
    assert ([y, x] + rest)[1..] == [x] + rest;
    assert ([x] + rest)[1..] == rest;
  }

  lemma WithScoreCons(x: Match, rest: seq<Match>, k: int)
    ensures WithScore([x] + rest, k) == (if x.score == k then [x] else []) + WithScore(rest, k)
  {
    assert ([x] + rest)[1..] == rest;
  }

  /** Puts `m` in front of the first match scoring no more than it. */
  function Insert(m: Match, ms: seq<Match>): (r: seq<Match>)
    requires NonIncreasing(ms)
    ensures NonIncreasing(r)
    ensures multiset(r) == multiset(ms) + multiset{m}
    ensures forall k :: WithScore(r, k) == WithScore([m] + ms, k)
  {
    if ms == [] || m.score >= ms[0].score then
      [m] + ms
    else
      var head, tail := ms[0], ms[1..];
      var rest := Insert(m, tail);
      InsertBelowHead(m, ms, rest);
      [head] + rest
  }

  /** The step of `Insert` that passes the first element: it stays first and the
      per-score subsequences do not change. */
  lemma InsertBelowHead(m: Match, ms: seq<Match>, rest: seq<Match>)
    requires NonIncreasing(ms) && ms != [] && m.score < ms[0].score
    requires NonIncreasing(rest) && multiset(rest) == multiset(ms[1..]) + multiset{m}
    requires forall k :: WithScore(rest, k) == WithScore([m] + ms[1..], k)
    ensures NonIncreasing([ms[0]] + rest)
    ensures multiset([ms[0]] + rest) == multiset(ms) + multiset{m}
    ensures forall k :: WithScore([ms[0]] + rest, k) == WithScore([m] + ms, k)
  {
    var head, tail := ms[0], ms[1..];
    assert ms == [head] + tail;
    ElementsBelowHead(head, tail, m, rest);
    InsertHead(head, rest);
    forall k ensures WithScore([head] + rest, k) == WithScore([m] + ms, k) {
      PassHead(m, head, tail, rest, k);
    }
  }

  lemma ElementsBelowHead(head: Match, tail: seq<Match>, m: Match, rest: seq<Match>)
    requires NonIncreasing([head] + tail) && m.score < head.score
    requires multiset(rest) == multiset(tail) + multiset{m}
    ensures forall x :: x in rest ==> x.score <= head.score
  {
    forall x | x in rest ensures x.score <= head.score {
      assert x in multiset(rest);
      if x != m {
        assert x in multiset(tail);
        var i :| 0 <= i < |tail| && tail[i] == x;
        assert ([head] + tail)[0] == head && ([head] + tail)[i + 1] == x;
      }
    }
  }

  lemma PassHead(m: Match, head: Match, tail: seq<Match>, rest: seq<Match>, k: int)
    requires m.score < head.score
    requires WithScore(rest, k) == WithScore([m] + tail, k)
    ensures WithScore([head] + rest, k) == WithScore([m] + ([head] + tail), k)
  {
    WithScoreCons(head, rest, k);
    WithScoreCons(head, [m] + tail, k);
    assert [head] + ([m] + tail) == [head, m] + tail;
    assert [m] + ([head] + tail) == [m, head] + tail;
    SwapDifferentScores(head, m, tail, k);
  }

  lemma InsertHead(head: Match, rest: seq<Match>)
    requires NonIncreasing(rest)
    requires forall x :: x in rest ==> x.score <= head.score
    ensures NonIncreasing([head] + rest)
  {
    forall i, j | 0 <= i < j < |[head] + rest| ensures ([head] + rest)[i].score >= ([head] + rest)[j].score {
      if i == 0 {
        assert ([head] + rest)[j] == rest[j - 1];
        assert rest[j - 1] in rest;
      } else {
        assert ([head] + rest)[i] == rest[i - 1];
        assert ([head] + rest)[j] == rest[j - 1];
      }
    }
  }

  /** `matches.sort(key=score, reverse=True)`: Python's sort is stable, also in
      reverse, so matches of equal score keep their order. */
  function SortByScore(ms: seq<Match>): (r: seq<Match>)
    ensures NonIncreasing(r)
    ensures multiset(r) == multiset(ms)
    ensures forall k :: WithScore(r, k) == WithScore(ms, k)
  {
    if ms == [] then []
    else
      var rest := SortByScore(ms[1..]);
      assert ms == [ms[0]] + ms[1..];
      assert forall k :: WithScore(ms, k) == WithScore([ms[0]] + rest, k) by {
        forall k ensures WithScore(ms, k) == WithScore([ms[0]] + rest, k) {
          WithScoreAppend([ms[0]], rest, k);
          WithScoreAppend([ms[0]], ms[1..], k);
        }
      }
      Insert(ms[0], rest)
  }

  /** Sortedness and stability pin the order down: two non-increasing sequences
      with the same matches of every score are equal. */
  lemma {:induction false} StableOrderIsUnique(a: seq<Match>, b: seq<Match>)
    requires NonIncreasing(a) && NonIncreasing(b)
    requires forall k :: WithScore(a, k) == WithScore(b, k)
    ensures a == b
    decreases |a| + |b|
  {
    SameEmptiness(a, b);
    SameEmptiness(b, a);
    if a != [] {
      var x, y := a[0], b[0];
      assert a == [x] + a[1..] && b == [y] + b[1..];
      WithScoreCons(x, a[1..], x.score);
      WithScoreCons(y, b[1..], y.score);
      HeadBoundsScores(a, y.score);
      HeadBoundsScores(b, x.score);
      assert x.score == y.score;
      assert WithScore(a, x.score)[0] == x && WithScore(b, x.score)[0] == y;
      forall k ensures WithScore(a[1..], k) == WithScore(b[1..], k) {
        WithScoreCons(x, a[1..], k);
        WithScoreCons(x, b[1..], k);
        var pre := if x.score == k then [x] else [];
        assert WithScore(a[1..], k) == (pre + WithScore(a[1..], k))[|pre|..];
        assert WithScore(b[1..], k) == (pre + WithScore(b[1..], k))[|pre|..];
      }
      StableOrderIsUnique(a[1..], b[1..]);
    }
  }

  /** A non-empty sequence has a match of its first element's score, so a sequence
      with the same per-score subsequences is non-empty too. */
  lemma SameEmptiness(a: seq<Match>, b: seq<Match>)
    requires forall k :: WithScore(a, k) == WithScore(b, k)
    ensures b != [] ==> a != []
  {
    if b != [] {
      assert b == [b[0]] + b[1..];
      WithScoreCons(b[0], b[1..], b[0].score);
      assert WithScore(a, b[0].score) != [];
    }
  }

  /** In a non-increasing sequence no match scores above the first. */
  lemma {:induction false} HeadBoundsScores(ms: seq<Match>, k: int)
    requires NonIncreasing(ms) && ms != []
    ensures k > ms[0].score ==> WithScore(ms, k) == []
    decreases |ms|
  {
    if |ms| > 1 {
      HeadBoundsScores(ms[1..], k);
    }
  }

  /** The result of the sort is the only stable, non-increasing rearrangement. */
  lemma SortIsTheStableSort(ms: seq<Match>, r: seq<Match>)
    requires NonIncreasing(r)
    requires forall k :: WithScore(r, k) == WithScore(ms, k)
    ensures r == SortByScore(ms)
  {
    StableOrderIsUnique(r, SortByScore(ms));
  }

  // ---------------------------------------------------------------- search

  /** The matches for a stripped query, best first. */
  function Search(doc: Document, query: string, mode: Mode, threshold: int, sc: Scorers): (r: seq<Match>)
    ensures NonIncreasing(r)
    ensures forall m :: m in r <==>
      exists e :: e in Items(doc.entries) && EntryMatch(e, Lower(query), mode, threshold, sc) == Some(m)
    ensures mode == Exact ==> forall m :: m in r ==> m.score == 100
    ensures mode == Fuzzy ==> forall m :: m in r ==> m.score >= threshold && m.score > 0
    ensures |r| <= |Items(doc.entries)|
    // the stable sort of the screen in entry order: the same records, and those of
    // each score in the same order
    ensures multiset(r) == multiset(Screen(Items(doc.entries), Lower(query), mode, threshold, sc))
    ensures forall k :: WithScore(r, k) == WithScore(Screen(Items(doc.entries), Lower(query), mode, threshold, sc), k)
  {
    var found := Screen(Items(doc.entries), Lower(query), mode, threshold, sc);
    SortKeepsMatches(found);
    ScreenScores(Items(doc.entries), Lower(query), mode, threshold, sc);
    SortByScore(found)
  }

  /** The sort neither adds nor drops a match. */
  lemma SortKeepsMatches(ms: seq<Match>)
    ensures forall m :: m in SortByScore(ms) <==> m in ms
    ensures |SortByScore(ms)| == |ms|
  {
    var r := SortByScore(ms);
    assert forall m :: m in r <==> m in multiset(r);
    assert forall m :: m in ms <==> m in multiset(ms);
    assert |r| == |multiset(r)| == |multiset(ms)| == |ms|;
  }

  /** Exact matches score 100; fuzzy ones reach the threshold and are positive. */
  lemma EntryMatchScore(e: Entry, q: string, mode: Mode, threshold: int, sc: Scorers)
    ensures var r := EntryMatch(e, q, mode, threshold, sc);
      && (r.Some? && mode == Exact ==> r.value.score == 100)
      && (r.Some? && mode == Fuzzy ==> r.value.score >= threshold && r.value.score > 0)
  {
    match mode
    case Exact => ExactHit(q, CandidateNames(e), threshold, sc);
    case Fuzzy => FuzzyHit(q, CandidateNames(e), threshold, sc);
  }

  lemma ScreenScores(entries: seq<Entry>, q: string, mode: Mode, threshold: int, sc: Scorers)
    ensures mode == Exact ==> forall m :: m in Screen(entries, q, mode, threshold, sc) ==> m.score == 100
    ensures mode == Fuzzy ==> forall m :: m in Screen(entries, q, mode, threshold, sc) ==>
      m.score >= threshold && m.score > 0
  {
    forall m | m in Screen(entries, q, mode, threshold, sc)
      ensures mode == Exact ==> m.score == 100
      ensures mode == Fuzzy ==> m.score >= threshold && m.score > 0
    {
      var e :| e in entries && EntryMatch(e, q, mode, threshold, sc) == Some(m);
      EntryMatchScore(e, q, mode, threshold, sc);
    }
  }

  // ---------------------------------------------------------------- threshold

  /** Raising the threshold can only take a fuzzy match away; a match that survives
      is reported unchanged. */
  lemma FuzzyEntryMonotone(e: Entry, q: string, t1: int, t2: int, sc: Scorers)
    requires t1 <= t2
    ensures EntryMatch(e, q, Fuzzy, t2, sc).Some? ==>
      EntryMatch(e, q, Fuzzy, t1, sc) == EntryMatch(e, q, Fuzzy, t2, sc)
  {
    var names := CandidateNames(e);
    FuzzyScanFindsEarliestBest(names, t1, Rating(q, sc), None);
    FuzzyScanFindsEarliestBest(names, t2, Rating(q, sc), None);
  }

  /** Collecting with `f` keeps a sub-multiset of collecting with `g` when `g`
      agrees with `f` wherever `f` yields something. */
  lemma {:induction false} CollectSubsumed<A(!new), B(!new)>(xs: seq<A>, f: A -> Option<B>, g: A -> Option<B>)
    requires forall x :: f(x).Some? ==> g(x) == f(x)
    ensures multiset(Collect(xs, f)) <= multiset(Collect(xs, g))
    decreases |xs|
  {
    if xs != [] {
      CollectSubsumed(xs[1..], f, g);
    }
  }

  /** Collecting with two functions that agree everywhere gives the same sequence. */
  lemma {:induction false} CollectCongruent<A(!new), B(!new)>(xs: seq<A>, f: A -> Option<B>, g: A -> Option<B>)
    requires forall x :: f(x) == g(x)
    ensures Collect(xs, f) == Collect(xs, g)
    decreases |xs|
  {
    if xs != [] {
      CollectCongruent(xs[1..], f, g);
    }
  }

  /** Monotonicity in the threshold: every fuzzy match reported at a higher
      threshold is reported at a lower one, so there are never more of them. */
  lemma SearchMonotoneInThreshold(doc: Document, query: string, t1: int, t2: int, sc: Scorers)
    requires t1 <= t2
    ensures multiset(Search(doc, query, Fuzzy, t2, sc)) <= multiset(Search(doc, query, Fuzzy, t1, sc))
    ensures |Search(doc, query, Fuzzy, t2, sc)| <= |Search(doc, query, Fuzzy, t1, sc)|
  {
    var q := Lower(query);
    var f := e => EntryMatch(e, q, Fuzzy, t2, sc);
    var g := e => EntryMatch(e, q, Fuzzy, t1, sc);
    forall e ensures f(e).Some? ==> g(e) == f(e) {
      FuzzyEntryMonotone(e, q, t1, t2, sc);
    }
    CollectSubsumed(Items(doc.entries), f, g);
    var hi := Search(doc, query, Fuzzy, t2, sc);
    var lo := Search(doc, query, Fuzzy, t1, sc);
    assert multiset(hi) <= multiset(lo);
    SubMultisetSize(multiset(hi), multiset(lo));
  }

  lemma {:induction false} SubMultisetSize<T>(a: multiset<T>, b: multiset<T>)
    requires a <= b
    ensures |a| <= |b|
    decreases |a|
  {
    if a != multiset{} {
      var x :| x in a;
      SubMultisetSize(a - multiset{x}, b - multiset{x});
    }
  }

  /** The exact mode never looks at the threshold. */
  lemma ExactIgnoresThreshold(doc: Document, query: string, t1: int, t2: int, sc: Scorers)
    ensures Search(doc, query, Exact, t1, sc) == Search(doc, query, Exact, t2, sc)
  {
    var q := Lower(query);
    CollectCongruent(Items(doc.entries), e => EntryMatch(e, q, Exact, t1, sc), e => EntryMatch(e, q, Exact, t2, sc));
  }

  /** A reported record lists at most three aliases and two addresses. */
  lemma EntryMatchCapped(e: Entry, q: string, mode: Mode, threshold: int, sc: Scorers)
    ensures var r := EntryMatch(e, q, mode, threshold, sc);
      r.Some? ==> |r.value.aliases| <= 3 && |r.value.addresses| <= 2
  {
    match NameHit(q, CandidateNames(e), mode, threshold, sc)
    case Some(h) => MakeMatchCapped(e, h);
    case None =>
  }

  lemma MakeMatchCapped(e: Entry, hit: Hit)
    ensures |MakeMatch(e, hit).aliases| <= 3 && |MakeMatch(e, hit).addresses| <= 2
  {
  }

  lemma SearchRecordsCapped(doc: Document, query: string, mode: Mode, threshold: int, sc: Scorers)
    ensures forall m :: m in Search(doc, query, mode, threshold, sc) ==> |m.aliases| <= 3 && |m.addresses| <= 2
  {
    var r := Search(doc, query, mode, threshold, sc);
    forall m | m in r ensures |m.aliases| <= 3 && |m.addresses| <= 2 {
      var e :| e in Items(doc.entries) && EntryMatch(e, Lower(query), mode, threshold, sc) == Some(m);
      EntryMatchCapped(e, Lower(query), mode, threshold, sc);
    }
  }

  /** A list of one entry yields that entry's match, or nothing. */
  lemma SingleEntrySearch(doc: Document, e: Entry, query: string, mode: Mode, threshold: int, sc: Scorers)
    requires Items(doc.entries) == [e]
    ensures Search(doc, query, mode, threshold, sc) ==
      match EntryMatch(e, Lower(query), mode, threshold, sc) case Some(m) => [m] case None => []
  {
    var f := x => EntryMatch(x, Lower(query), mode, threshold, sc);
    CollectCons([e], f);
    assert [e][1..] == [];
    var found := Screen([e], Lower(query), mode, threshold, sc);
    assert found == match f(e) case Some(m) => [m] case None => [];
    SortOfShort(found);
  }

  /** A list of at most one match is already sorted. */
  lemma SortOfShort(ms: seq<Match>)
    requires |ms| <= 1
    ensures SortByScore(ms) == ms
  {
    if |ms| == 1 {
      assert ms[1..] == [];
    }
  }
}
