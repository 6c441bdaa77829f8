/** The text `check_ofac` returns: one block per listed match under a summary
    header, the "no match" report, the failure report and the blank-query error.
    A block is first built as a list of typed lines, then rendered line by line. */
module Report {
  import opened Base
  import opened Text
  import opened Sdn
  import opened Matching

  // Emoji prefixes of the report lines.
  const Warning := "\U{26A0}\U{FE0F}"
  const Calendar := "\U{1F4C5}"
  const Magnifier := "\U{1F50D}"
  const CheckMark := "\U{2705}"
  const CrossMark := "\U{274C}"
  const Bullet := "\U{2022}"

  /** The rule under the header: sixty "=" signs. */
  const Rule := "============================================================"

  /** At most this many matches are listed. */
  const MaxListed: nat := 5

  /** Remarks longer than this are cut. */
  const RemarksLimit: nat := 200

  /** One line of a match block. */
  datatype Line =
    | Title(rank: nat, name: string, shownScore: Option<Score>)
    | TypeLine(sdnType: string)
    | ProgramLine(program: Program)
    | MatchedLine(matched: string)
    | AkaLine(aliases: seq<string>)
    | AddressesHeading
    | AddressLine(address: string)
    | RemarksLine(remarks: string)
    | UidLine(uid: string)

  /** Remarks as shown: unchanged up to 200 characters, otherwise their first 200
      characters followed by "...". */
  function Abbreviate(remarks: string): (r: string)
    ensures |remarks| <= RemarksLimit ==> r == remarks
    ensures |remarks| > RemarksLimit ==>
      |r| == RemarksLimit + 3 && r[..RemarksLimit] == remarks[..RemarksLimit] && r[RemarksLimit..] == "..."
    ensures |r| <= RemarksLimit + 3
  {
    if |remarks| > RemarksLimit then remarks[..RemarksLimit] + "..." else remarks
  }

  /** The kind of a line, one number per constructor. */
  function Kind(l: Line): nat {
    match l
    case Title(_, _, _) => TitleKind
    case TypeLine(_) => TypeKind
    case ProgramLine(_) => ProgramKind
    case MatchedLine(_) => MatchedKind
    case AkaLine(_) => AkaKind
    case AddressesHeading => AddressesHeadingKind
    case AddressLine(_) => AddressKind
    case RemarksLine(_) => RemarksKind
    case UidLine(_) => UidKind
  }

  const TitleKind: nat := 0
  const TypeKind: nat := 1
  const ProgramKind: nat := 2
  const MatchedKind: nat := 3
  const AkaKind: nat := 4
  const AddressesHeadingKind: nat := 5
  const AddressKind: nat := 6
  const RemarksKind: nat := 7
  const UidKind: nat := 8

  /** The lines of kind `k`, in order. */
  function OfKind(lines: seq<Line>, k: nat): seq<Line> {
    if lines == [] then []
    else
      var rest := OfKind(lines[1..], k);
      if Kind(lines[0]) == k then [lines[0]] + rest else rest
  }

  lemma {:induction false} OfKindAppend(a: seq<Line>, b: seq<Line>, k: nat)
    ensures OfKind(a + b, k) == OfKind(a, k) + OfKind(b, k)
    decreases |a|
  {
    if a == [] {
      assert a + b == b;
    } else {
      assert (a + b)[1..] == a[1..] + b;
      assert (a + b)[0] == a[0];
      OfKindAppend(a[1..], b, k);
    }
  }

  lemma OfKindSingle(l: Line, k: nat)
    ensures OfKind([l], k) == if Kind(l) == k then [l] else []
  {
    assert [l][1..] == [];
  }

  /** Title, type and program lines are of none of the kinds listed selectively. */
  lemma OfKindFront(a: Line, b: Line, c: Line, k: nat)
    requires Kind(a) < 3 && Kind(b) < 3 && Kind(c) < 3 && k >= 3
    ensures OfKind([a, b, c], k) == []
  {
    assert [a, b, c][1..] == [b, c];
    assert [b, c][1..] == [c];
    OfKindSingle(c, k);
  }

  function AddressLines(addrs: seq<string>): (r: seq<Line>)
    ensures |r| == |addrs|
    ensures forall i :: 0 <= i < |r| ==> r[i] == AddressLine(addrs[i])
  {
    seq(|addrs|, i requires 0 <= i < |addrs| => AddressLine(addrs[i]))
  }

  lemma {:induction false} AddressLinesKinds(addrs: seq<string>, k: nat)
    ensures OfKind(AddressLines(addrs), k) == if k == AddressKind then AddressLines(addrs) else []
    decreases |addrs|
  {
    if addrs != [] {
      AddressLinesKinds(addrs[1..], k);
      assert AddressLines(addrs)[1..] == AddressLines(addrs[1..]);
    }
  }

  /** The title, type and program lines that open every block. */
  function FrontLines(rank: nat, m: Match, mode: Mode): seq<Line> {
    [Title(rank, m.name, if mode == Fuzzy && m.score < 100 then Some(m.score) else None),
     TypeLine(m.sdnType), ProgramLine(m.program)]
  }

  /** The optional lines of a block. */
  function MatchedLines(m: Match): seq<Line> {
    match m.matchedName
    case Some(n) => [MatchedLine(n)]
    case None => []
  }

  function AkaLines(m: Match): seq<Line> {
    if m.aliases == [] then [] else [AkaLine(m.aliases)]
  }

  function AddressBlock(addresses: seq<string>): seq<Line> {
    if addresses == [] then [] else [AddressesHeading] + AddressLines(addresses)
  }

  function RemarksLines(m: Match): seq<Line> {
    if m.remarks == "" then [] else [RemarksLine(Abbreviate(m.remarks))]
  }

  /** The lines of the block for the match ranked `rank`: a title carrying the
      score only for fuzzy scores below 100, type and program, a `Matched:` line
      only for a matched alias, the aliases if any, every address of the record,
      the abbreviated remarks if any, and the uid last. */
  function MatchLines(rank: nat, m: Match, mode: Mode): (lines: seq<Line>)
    ensures |lines| >= 4
    ensures lines[0].Title? && lines[0].rank == rank && lines[0].name == m.name
    ensures lines[0].shownScore.Some? <==> mode == Fuzzy && m.score < 100
    ensures lines[0].shownScore.Some? ==> lines[0].shownScore.value == m.score
    ensures lines[1] == TypeLine(m.sdnType) && lines[2] == ProgramLine(m.program)
    ensures lines[|lines| - 1] == UidLine(m.uid)
  {
    FrontLines(rank, m, mode) + MatchedLines(m) + AkaLines(m) + AddressBlock(m.addresses) + RemarksLines(m)
    + [UidLine(m.uid)]
  }

  lemma FrontKinds(rank: nat, m: Match, mode: Mode, k: nat)
    requires k >= 3
    ensures OfKind(FrontLines(rank, m, mode), k) == []
  {
    var f := FrontLines(rank, m, mode);
    OfKindFront(f[0], f[1], f[2], k);
  }

  /** Selecting one of the optional kinds from a block skips the title, type,
      program and uid lines. */
  lemma LinesOfKind(rank: nat, m: Match, mode: Mode, k: nat)
    requires 3 <= k && k != AddressesHeadingKind && k != UidKind
    ensures OfKind(MatchLines(rank, m, mode), k) ==
      OfKind(MatchedLines(m), k) + OfKind(AkaLines(m), k)
      + (if k == AddressKind then AddressLines(m.addresses) else []) + OfKind(RemarksLines(m), k)
  {
    KindsOfBlock(FrontLines(rank, m, mode), MatchedLines(m), AkaLines(m), AddressBlock(m.addresses), RemarksLines(m),
      [UidLine(m.uid)], m.addresses, k);
    FrontKinds(rank, m, mode, k);
    OfKindSingle(UidLine(m.uid), k);
  }

  lemma OptionalKinds(m: Match, k: nat)
    ensures OfKind(MatchedLines(m), k) == if k == MatchedKind then MatchedLines(m) else []
    ensures OfKind(AkaLines(m), k) == if k == AkaKind then AkaLines(m) else []
    ensures OfKind(RemarksLines(m), k) == if k == RemarksKind then RemarksLines(m) else []
  {
    if m.matchedName.Some? { OfKindSingle(MatchedLine(m.matchedName.value), k); }
    if m.aliases != [] { OfKindSingle(AkaLine(m.aliases), k); }
    if m.remarks != "" { OfKindSingle(RemarksLine(Abbreviate(m.remarks)), k); }
  }

  /** A block has a `Matched:` line exactly when an alias matched, an `AKAs:` line
      exactly when the record has aliases, one address line per address, and a
      remarks line exactly when there are remarks, showing them abbreviated. */
  lemma MatchLinesSections(rank: nat, m: Match, mode: Mode)
    ensures var lines := MatchLines(rank, m, mode);
      && OfKind(lines, MatchedKind) == (match m.matchedName case Some(n) => [MatchedLine(n)] case None => [])
      && OfKind(lines, AkaKind) == (if m.aliases == [] then [] else [AkaLine(m.aliases)])
      && OfKind(lines, AddressKind) == AddressLines(m.addresses)
      && OfKind(lines, RemarksKind) == (if m.remarks == "" then [] else [RemarksLine(Abbreviate(m.remarks))])
  {
    MatchedSection(rank, m, mode);
    AkaSection(rank, m, mode);
    AddressSection(rank, m, mode);
    RemarksSection(rank, m, mode);
  }

  lemma MatchedSection(rank: nat, m: Match, mode: Mode)
    ensures OfKind(MatchLines(rank, m, mode), MatchedKind) == MatchedLines(m)
  {
    LinesOfKind(rank, m, mode, MatchedKind);
    OptionalKinds(m, MatchedKind);
  }

  lemma AkaSection(rank: nat, m: Match, mode: Mode)
    ensures OfKind(MatchLines(rank, m, mode), AkaKind) == AkaLines(m)
  {
    LinesOfKind(rank, m, mode, AkaKind);
    OptionalKinds(m, AkaKind);
  }

  lemma AddressSection(rank: nat, m: Match, mode: Mode)
    ensures OfKind(MatchLines(rank, m, mode), AddressKind) == AddressLines(m.addresses)
  {
    LinesOfKind(rank, m, mode, AddressKind);
    OptionalKinds(m, AddressKind);
  }

  lemma RemarksSection(rank: nat, m: Match, mode: Mode)
    ensures OfKind(MatchLines(rank, m, mode), RemarksKind) == RemarksLines(m)
  {
    LinesOfKind(rank, m, mode, RemarksKind);
    OptionalKinds(m, RemarksKind);
  }

  lemma AddressBlockKinds(addresses: seq<string>, k: nat)
    requires k != AddressesHeadingKind
    ensures OfKind(AddressBlock(addresses), k) == if k == AddressKind then AddressLines(addresses) else []
  {
    if addresses != [] {
      OfKindAppend([AddressesHeading], AddressLines(addresses), k);
      AddressLinesKinds(addresses, k);
      assert [AddressesHeading][1..] == [];
    }
  }

  lemma KindsOfBlock(a: seq<Line>, b: seq<Line>, c: seq<Line>, d: seq<Line>, e: seq<Line>, f: seq<Line>,
                     addresses: seq<string>, k: nat)
    requires d == AddressBlock(addresses)
    requires k != AddressesHeadingKind
    ensures OfKind(a + b + c + d + e + f, k) ==
      OfKind(a, k) + OfKind(b, k) + OfKind(c, k)
      + (if k == AddressKind then AddressLines(addresses) else []) + OfKind(e, k) + OfKind(f, k)
  {
    OfKindAppend(a, b, k);
    OfKindAppend(a + b, c, k);
    OfKindAppend(a + b + c, d, k);
    OfKindAppend(a + b + c + d, e, k);
    OfKindAppend(a + b + c + d + e, f, k);
    AddressBlockKinds(addresses, k);
  }

  /** The blocks of the report: the first five matches, ranked from 1. */
  function Blocks(ms: seq<Match>, mode: Mode): seq<seq<Line>> {
    var shown := Take(ms, MaxListed);
    seq(|shown|, i requires 0 <= i < |shown| => MatchLines(i + 1, shown[i], mode))
  }

  /** At most five matches are listed, numbered 1, 2, ... in the order of `ms`, and a
      block shows a score only in fuzzy mode and below 100. */
  lemma ListsTopFiveRanked(ms: seq<Match>, mode: Mode)
    ensures var bs := Blocks(ms, mode);
      && |bs| == (if |ms| <= MaxListed then |ms| else MaxListed)
      && (forall i :: 0 <= i < |bs| ==> bs[i][0].rank == i + 1 && bs[i][0].name == ms[i].name)
      && (forall i :: 0 <= i < |bs| ==>
            (bs[i][0].shownScore.Some? <==> mode == Fuzzy && ms[i].score < 100))
  {
  }

  /** A block lists one address line per address of its record and shows the
      record's aliases on a single `AKAs:` line. */
  lemma BlockCapped(rank: nat, m: Match, mode: Mode)
    requires |m.aliases| <= 3 && |m.addresses| <= 2
    ensures |OfKind(MatchLines(rank, m, mode), AddressKind)| <= 2
    ensures forall l :: l in OfKind(MatchLines(rank, m, mode), AkaKind) ==> l.AkaLine? && |l.aliases| <= 3
  {
    AddressSection(rank, m, mode);
    AkaSection(rank, m, mode);
  }

  /** The block at position `i` is that of the match at position `i`, ranked `i + 1`. */
  lemma BlockAt(ms: seq<Match>, mode: Mode, i: nat)
    requires i < |Blocks(ms, mode)|
    ensures i < |ms| && Blocks(ms, mode)[i] == MatchLines(i + 1, ms[i], mode)
  {
  }

  lemma BlocksCapped(ms: seq<Match>, mode: Mode)
    requires forall m :: m in ms ==> |m.aliases| <= 3 && |m.addresses| <= 2
    ensures var bs := Blocks(ms, mode);
      forall i :: 0 <= i < |bs| ==>
        && |OfKind(bs[i], AddressKind)| <= 2
        && forall l :: l in OfKind(bs[i], AkaKind) ==> l.AkaLine? && |l.aliases| <= 3
  {
    var bs := Blocks(ms, mode);
    forall i | 0 <= i < |bs|
      ensures |OfKind(bs[i], AddressKind)| <= 2
      ensures forall l :: l in OfKind(bs[i], AkaKind) ==> l.AkaLine? && |l.aliases| <= 3
    {
      BlockAt(ms, mode, i);
      assert ms[i] in ms;
      BlockCapped(i + 1, ms[i], mode);
    }
  }

  /** Blocks built from search results list at most two addresses, and at most
      three aliases on their `AKAs:` line. */
  lemma SearchBlocksAreCapped(doc: Document, query: string, mode: Mode, threshold: int, sc: Scorers)
    ensures var bs := Blocks(Search(doc, query, mode, threshold, sc), mode);
      forall i :: 0 <= i < |bs| ==>
        && |OfKind(bs[i], AddressKind)| <= 2
        && forall l :: l in OfKind(bs[i], AkaKind) ==> l.AkaLine? && |l.aliases| <= 3
  {
    SearchRecordsCapped(doc, query, mode, threshold, sc);
    BlocksCapped(Search(doc, query, mode, threshold, sc), mode);
  }

  // ---------------------------------------------------------------- rendering

  function ShowProgram(p: Program): string {
    match p
    case Label(tag) => tag
    case Labels(tags) => "[" + Join(Quoted(tags), ", ") + "]"
  }

  function Quoted(tags: seq<string>): seq<string> {
    seq(|tags|, i requires 0 <= i < |tags| => "'" + tags[i] + "'")
  }

  function ShowLine(l: Line): string {
    match l
    case Title(rank, name, score) =>
      "MATCH #" + Show(rank) + ": " + name
      + (match score case Some(s) => " (" + Show(s) + "% match)" case None => "")
    case TypeLine(t) => "  Type: " + t
    case ProgramLine(p) => "  Program: " + ShowProgram(p)
    case MatchedLine(n) => "  Matched: " + n
    case AkaLine(aliases) => "  AKAs: " + Join(aliases, ", ")
    case AddressesHeading => "  Addresses:"
    case AddressLine(a) => "    " + Bullet + " " + a
    case RemarksLine(r) => "  Remarks: " + r
    case UidLine(u) => "  UID: " + u
  }

  function ShowLines(lines: seq<Line>): (r: seq<string>)
    ensures |r| == |lines| && forall i :: 0 <= i < |lines| ==> r[i] == ShowLine(lines[i])
  {
    seq(|lines|, i requires 0 <= i < |lines| => ShowLine(lines[i]))
  }

  function ShowBlock(lines: seq<Line>): string {
    Join(ShowLines(lines), "\n")
  }

  /** The text of a block opens with "MATCH #rank: name", then " (N% match)" exactly
      in fuzzy mode below 100, then the type and program lines, and ends with the uid
      line. */
  lemma BlockText(rank: nat, m: Match, mode: Mode)
    ensures var text := ShowBlock(MatchLines(rank, m, mode));
      var note := if mode == Fuzzy && m.score < 100 then " (" + Show(m.score) + "% match)" else "";
      && IsPrefix(("MATCH #" + Show(rank) + ": " + m.name + note) + "\n" + ("  Type: " + m.sdnType)
                  + "\n" + ("  Program: " + ShowProgram(m.program)), text)
      && IsPrefix("MATCH #" + Show(rank) + ": " + m.name + note, text)
      && IsSuffix("  UID: " + m.uid, text)
  {
    var strs := ShowLines(MatchLines(rank, m, mode));
    BlockLines(rank, m, mode);
    JoinHead(strs, "\n");
    JoinFront(strs, "\n");
    JoinBack(strs, "\n");
  }

  /** The rendered title, type, program and uid lines of a block. */
  lemma BlockLines(rank: nat, m: Match, mode: Mode)
    ensures var strs := ShowLines(MatchLines(rank, m, mode));
      var note := if mode == Fuzzy && m.score < 100 then " (" + Show(m.score) + "% match)" else "";
      && |strs| >= 4
      && strs[0] == "MATCH #" + Show(rank) + ": " + m.name + note
      && strs[1] == "  Type: " + m.sdnType
      && strs[2] == "  Program: " + ShowProgram(m.program)
      && strs[|strs| - 1] == "  UID: " + m.uid
  {
    var lines := MatchLines(rank, m, mode);
    var t := lines[0];
    assert t == Title(rank, m.name, if mode == Fuzzy && m.score < 100 then Some(m.score) else None);
  }

  /** The blocks of the listed matches, rendered and separated by blank lines. */
  function ShowBlocks(bs: seq<seq<Line>>): (r: seq<string>)
    ensures |r| == |bs| && forall i :: 0 <= i < |bs| ==> r[i] == ShowBlock(bs[i])
  {
    seq(|bs|, i requires 0 <= i < |bs| => ShowBlock(bs[i]))
  }

  function Listing(ms: seq<Match>, mode: Mode): string {
    Join(ShowBlocks(Blocks(ms, mode)), "\n\n")
  }

  /** The verdict and the number of matches, all of them, on the header's first line. */
  function CountText(total: nat): string {
    "OFAC SANCTIONS MATCH - " + Show(total) + " result(s)"
  }

  /** The listing opens with the block of the best match, ranked 1, showing its
      primary name. */
  lemma ListingOpens(ms: seq<Match>, mode: Mode)
    requires ms != []
    ensures IsPrefix("MATCH #1: " + ms[0].name, Listing(ms, mode))
  {
    var texts := ShowBlocks(Blocks(ms, mode));
    BlockAt(ms, mode, 0);
    JoinHead(texts, "\n\n");
    var m := ms[0];
    BlockText(1, m, mode);
    var note := if mode == Fuzzy && m.score < 100 then " (" + Show(m.score) + "% match)" else "";
    var title := "MATCH #" + Show(1) + ": " + m.name + note;
    FirstTitle(m.name, note);
    PrefixTrans(title, texts[0], Listing(ms, mode));
    PrefixTrans("MATCH #1: " + m.name, title, Listing(ms, mode));
  }

  lemma FirstTitle(name: string, note: string)
    ensures IsPrefix("MATCH #1: " + name, "MATCH #" + Show(1) + ": " + name + note)
  {
    assert Show(1) == "1";
    assert "MATCH #" + Show(1) + ": " + name == "MATCH #1: " + name;
  }

  /** The start of the header: the warning sign and the count. */
  function Opening(total: nat): string {
    Warning + " " + CountText(total)
  }

  function ModeName(mode: Mode): string {
    if mode == Fuzzy then "Fuzzy" else "Exact"
  }

  /** The first line of the match report: the count of all matches and the mode. */
  function HeaderLine(total: nat, mode: Mode): string {
    Opening(total) + " (" + ModeName(mode) + " search)\n"
  }

  /** The line giving the list's publication date, in either report. */
  function DateLine(publishDate: string): string {
    Calendar + " List Published: " + publishDate + "\n"
  }

  /** The pieces of the match report: header line, date line, the quoted query, the
      rule, and the listing. */
  function MatchReportParts(total: nat, mode: Mode, publishDate: string, query: string, listing: string): seq<string> {
    [ HeaderLine(total, mode), DateLine(publishDate), Magnifier + " Search: '", query, "'\n" + Rule + "\n\n",
      listing ]
  }

  /** The report for a non-empty list of matches. */
  function MatchReport(ms: seq<Match>, mode: Mode, publishDate: string, query: string): string {
    Concat(MatchReportParts(|ms|, mode, publishDate, query, Listing(ms, mode)))
  }

  /** The match report opens with the number of matches (all of them, not only the
      five listed) and the search mode, then the list's publication date; it names
      the query, and ends with the listing. */
  lemma MatchReportMentions(ms: seq<Match>, mode: Mode, publishDate: string, query: string)
    ensures var r := MatchReport(ms, mode, publishDate, query);
      && IsPrefix(Opening(|ms|) + " (" + ModeName(mode) + " search)\n" + DateLine(publishDate), r)
      && IsPrefix(Warning + " " + CountText(|ms|), r)
      && Contains(r, CountText(|ms|))
      && Contains(r, query)
      && Contains(r, publishDate)
      && IsSuffix(Listing(ms, mode), r)
  {
    var parts := MatchReportParts(|ms|, mode, publishDate, query, Listing(ms, mode));
    assert parts == [parts[0], parts[1]] + parts[2..];
    HeaderOpens(parts[0], parts[1], parts[2..]);
    HeaderLineOpens(|ms|, mode, parts[1]);
    PrefixTrans(Opening(|ms|), parts[0] + parts[1], Concat(parts));
    ContainsCount(|ms|);
    ContainsTrans(Concat(parts), Opening(|ms|), CountText(|ms|));
    DateLineMentions(publishDate);
    ContainsTrans(Concat(parts), DateLine(publishDate), publishDate);
    MentionsPart(parts, 3, query);
    ConcatLast(parts);
  }

  /** The listing ends with the uid line of the last listed match: the fifth when
      there are more than five. */
  lemma ListingEnds(ms: seq<Match>, mode: Mode)
    requires ms != []
    ensures var last := (if |ms| <= MaxListed then |ms| else MaxListed) - 1;
      IsSuffix("  UID: " + ms[last].uid, Listing(ms, mode))
  {
    var bs := Blocks(ms, mode);
    ListsTopFiveRanked(ms, mode);
    var last := |bs| - 1;
    BlockAt(ms, mode, last);
    BlockText(last + 1, ms[last], mode);
    var texts := ShowBlocks(bs);
    JoinBack(texts, "\n\n");
    SuffixTrans("  UID: " + ms[last].uid, texts[last], Listing(ms, mode));
  }

  /** The match report names the best match in the first block's title, and ends with
      the uid line of the last listed match. */
  lemma MatchReportListsBest(ms: seq<Match>, mode: Mode, publishDate: string, query: string)
    requires ms != []
    ensures var r := MatchReport(ms, mode, publishDate, query);
      var last := (if |ms| <= MaxListed then |ms| else MaxListed) - 1;
      && Contains(r, "MATCH #1: " + ms[0].name)
      && IsSuffix("  UID: " + ms[last].uid, r)
  {
    var r := MatchReport(ms, mode, publishDate, query);
    var listing := Listing(ms, mode);
    var last := (if |ms| <= MaxListed then |ms| else MaxListed) - 1;
    var title := "MATCH #1: " + ms[0].name;
    MatchReportMentions(ms, mode, publishDate, query);
    ListingOpens(ms, mode);
    ContainsPrefix(title, listing);
    ContainsSuffix(listing, r);
    ContainsTrans(r, listing, title);
    ListingEnds(ms, mode);
    SuffixTrans("  UID: " + ms[last].uid, listing, r);
  }

  /** A concatenation opens with its first two pieces. */
  lemma HeaderOpens(a: string, b: string, rest: seq<string>)
    ensures IsPrefix(a + b, Concat([a, b] + rest)) && Contains(Concat([a, b] + rest), b)
  {
    var parts := [a, b] + rest;
    assert parts[0] == a && parts[1..] == [b] + rest;
    ConcatCons(b, rest);
    assert Concat(parts) == a + (b + Concat(rest));
    AppendAssoc(a, b, Concat(rest));
    PrefixOfAppend(a + b, Concat(rest));
    ContainsInfix(a, b, Concat(rest));
  }

  lemma HeaderLineOpens(total: nat, mode: Mode, rest: string)
    ensures IsPrefix(Opening(total), HeaderLine(total, mode) + rest)
  {
    var o, a := Opening(total), Opening(total) + " (";
    var b := a + ModeName(mode);
    PrefixOfAppend(o, " (");
    PrefixOfAppend(a, ModeName(mode));
    PrefixOfAppend(b, " search)\n");
    PrefixOfAppend(HeaderLine(total, mode), rest);
    PrefixTrans(o, a, b);
    PrefixTrans(o, b, HeaderLine(total, mode));
    PrefixTrans(o, HeaderLine(total, mode), HeaderLine(total, mode) + rest);
  }

  lemma ContainsCount(total: nat)
    ensures Contains(Opening(total), CountText(total))
  {
    ContainsInfix(Warning + " ", CountText(total), []);
    assert Warning + " " + CountText(total) + [] == Opening(total);
  }

  lemma DateLineMentions(publishDate: string)
    ensures Contains(DateLine(publishDate), publishDate)
  {
    ContainsInfix(Calendar + " List Published: ", publishDate, "\n");
  }

  function ModeWord(mode: Mode): string {
    if mode == Fuzzy then "fuzzy" else "exact"
  }

  /** The end of the "no match" report, naming the mode. */
  function NoMatchTail(mode: Mode): string {
    "' (" + ModeWord(mode) + " search)\nNo matches found on OFAC SDN list."
  }

  /** The pieces of the report when nothing matched. */
  function NoMatchParts(query: string, mode: Mode, publishDate: string): seq<string> {
    [ CheckMark + " " + "NO SANCTIONS MATCH" + "\n", DateLine(publishDate), Magnifier + " Search: '", query,
      NoMatchTail(mode) ]
  }

  /** The report when nothing matched. */
  function NoMatchReport(query: string, mode: Mode, publishDate: string): string {
    Concat(NoMatchParts(query, mode, publishDate))
  }

  /** The "no match" report opens with the verdict and then the list's publication
      date, names the query, and ends by naming the search mode. */
  lemma NoMatchReportMentions(query: string, mode: Mode, publishDate: string)
    ensures var r := NoMatchReport(query, mode, publishDate);
      && IsPrefix(CheckMark + " " + "NO SANCTIONS MATCH" + "\n" + DateLine(publishDate), r)
      && IsSuffix("' (" + ModeWord(mode) + " search)\nNo matches found on OFAC SDN list.", r)
      && Contains(r, "NO SANCTIONS MATCH")
      && Contains(r, query)
      && Contains(r, publishDate)
      && Contains(r, ModeWord(mode))
  {
    var parts := NoMatchParts(query, mode, publishDate);
    assert parts == [parts[0], parts[1]] + parts[2..];
    HeaderOpens(parts[0], parts[1], parts[2..]);
    ContainsPrefix(parts[0] + parts[1], Concat(parts));
    NoMatchVerdict(parts[1]);
    ContainsTrans(Concat(parts), parts[0] + parts[1], "NO SANCTIONS MATCH");
    DateLineMentions(publishDate);
    ContainsTrans(Concat(parts), DateLine(publishDate), publishDate);
    MentionsPart(parts, 3, query);
    ConcatLast(parts);
    ContainsSuffix(NoMatchTail(mode), Concat(parts));
    ContainsInfix("' (", ModeWord(mode), " search)\nNo matches found on OFAC SDN list.");
    ContainsTrans(Concat(parts), NoMatchTail(mode), ModeWord(mode));
  }

  lemma NoMatchVerdict(rest: string)
    ensures Contains(CheckMark + " " + "NO SANCTIONS MATCH" + "\n" + rest, "NO SANCTIONS MATCH")
  {
    AppendAssoc(CheckMark + " " + "NO SANCTIONS MATCH", "\n", rest);
    ContainsInfix(CheckMark + " ", "NO SANCTIONS MATCH", "\n" + rest);
  }

  /** The explanation closing the failure report. */
  const FailureAdvice := "\n\nThis could be due to:\n"
    + "  " + Bullet + " Network connectivity issues\n"
    + "  " + Bullet + " OFAC server temporarily unavailable\n"
    + "  " + Bullet + " Data format changes\n\n"
    + "Please try again later."

  /** The report when no data could be obtained. */
  function FailureReport(reason: string): string {
    CrossMark + " OFAC CHECK FAILED\n" + "Unable to check sanctions list: " + reason + FailureAdvice
  }

  /** The failure report opens with the verdict and the reason it was given, and ends
      by asking to try again later. */
  lemma FailureReportNamesReason(reason: string)
    ensures IsPrefix(CrossMark + " OFAC CHECK FAILED\n" + "Unable to check sanctions list: " + reason, FailureReport(reason))
    ensures IsSuffix("Please try again later.", FailureReport(reason))
    ensures Contains(FailureReport(reason), reason)
  {
    var head := CrossMark + " OFAC CHECK FAILED\n" + "Unable to check sanctions list: " + reason;
    PrefixOfAppend(head, FailureAdvice);
    AdviceEnds();
    SuffixOfAppend(head, FailureAdvice);
    SuffixTrans("Please try again later.", FailureAdvice, FailureReport(reason));
    ContainsInfix(CrossMark + " OFAC CHECK FAILED\n" + "Unable to check sanctions list: ", reason, FailureAdvice);
  }

  lemma AdviceEnds()
    ensures IsSuffix("Please try again later.", FailureAdvice)
  {
    var p := "Please try again later.";
    var pre := "\n\nThis could be due to:\n"
      + "  " + Bullet + " Network connectivity issues\n"
      + "  " + Bullet + " OFAC server temporarily unavailable\n"
      + "  " + Bullet + " Data format changes\n\n";
    SuffixOfAppend(pre, p);
  }

  const BlankQueryError := CrossMark + " Error: Please provide a name to search"
}
