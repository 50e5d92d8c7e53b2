/** The client page's own logic: the Markdown report built from the view state, the
    heuristic that picks which of the two form states to show, the download file name, and
    the set of selected paper positions. */
module Page {
  import opened Wrappers
  import opened Strings
  import opened FindRelevantPapers
  import opened Actions

  predicate EndsWith(s: string, suffix: string) {
    |suffix| <= |s| && s[|s| - |suffix|..] == suffix
  }

  lemma Associate(a: string, b: string, c: string)
    ensures a + b + c == a + (b + c)
  {
  }

  /** Whatever is appended, a prefix stays a prefix. */
  lemma PrefixExtends(a: string, b: string, c: string)
    requires a <= b
    ensures a <= b + c
  {
    assert (b + c)[..|a|] == b[..|a|];
  }

  lemma PrefixOfAppend(a: string, b: string)
    ensures a <= a + b
  {
    assert (a + b)[..|a|] == a;
  }

  lemma SuffixOfAppend(a: string, b: string)
    ensures EndsWith(a + b, b)
  {
    assert (a + b)[|a|..] == b;
  }

  // ---------------------------------------------------------------------------------
  // Report

  /** `state.comparison?.analysis`, read as the empty string when there is no comparison. */
  function Analysis(state: SearchState): string {
    if state.comparison.Some? then state.comparison.value.analysis else ""
  }

  /** What the section-matching regular expressions found in the analysis: for each section,
      the trimmed capture when its group captured non-empty text. */
  datatype ExtractedSections = ExtractedSections(
    methods: Option<string>,
    performance: Option<string>,
    openQuestions: Option<string>)

  type SectionExtractor = string -> ExtractedSections

  const NoSections := ExtractedSections(None, None, None)

  function ReportTitle(state: SearchState): string {
    "# Research Report: " + TopicOrDefault(state.searchTopic) + "\n\n"
  }

  const ComparativeHeading := "## Comparative Analysis\n\n"
  const PapersComparedHeading := "## Papers Compared\n\n"
  const SearchedPapersHeading := "## Searched Papers\n\n"
  const ExtractedHeading := "## Extracted Sections (from Comparison)\n\n"

  /** A paragraph followed by a blank line. */
  function Paragraph(text: string): string {
    text + "\n\n"
  }

  /** The analysis and the "Papers Compared" heading, or the "Searched Papers" heading. */
  function AnalysisBlock(state: SearchState): string {
    if Analysis(state) != "" then
      ComparativeHeading + Paragraph(Analysis(state)) + PapersComparedHeading
    else
      SearchedPapersHeading
  }

  // The template literals appended for one paper, each as one piece of text.

  function HeadingLine(index: nat, paper: SummarizedPaper): string {
    "### " + NatToDecimal(index + 1) + ". " + paper.title + "\n\n"
  }

  function AuthorsLine(paper: SummarizedPaper): string {
    "**Authors:** " + Join(paper.authors, ", ") + "\n"
  }

  function PublishedLine(paper: SummarizedPaper): string {
    "**Published:** " + paper.published + "\n"
  }

  function UrlLine(paper: SummarizedPaper): string {
    "**URL:** [" + paper.url + "](" + paper.url + ")\n\n"
  }

  function AbstractLines(paper: SummarizedPaper): string {
    "**Abstract:**\n" + paper.abstractText + "\n\n"
  }

  function SummaryLines(paper: SummarizedPaper): string {
    "**AI Summary:**\n" + paper.summary + "\n\n"
  }

  const Rule := "---\n\n"

  /** The lines of one paper before its optional summary. */
  function EntryHead(index: nat, paper: SummarizedPaper): string {
    HeadingLine(index, paper) + AuthorsLine(paper) + PublishedLine(paper) + UrlLine(paper) + AbstractLines(paper)
  }

  /** The summary lines, only when the summary is non-empty. */
  function SummaryBlock(paper: SummarizedPaper): string {
    if paper.summary != "" then SummaryLines(paper) else ""
  }

  /** The report's entry for the paper at position `index` (numbered from 1). */
  function Entry(index: nat, paper: SummarizedPaper): string {
    EntryHead(index, paper) + SummaryBlock(paper) + Rule
  }

  /** The entries of all papers, in list order. */
  function Entries(papers: seq<SummarizedPaper>): string
    decreases |papers|
  {
    if papers == [] then ""
    else Entries(papers[..|papers| - 1]) + Entry(|papers| - 1, papers[|papers| - 1])
  }

  lemma EntriesSnoc(papers: seq<SummarizedPaper>, i: nat)
    requires i < |papers|
    ensures Entries(papers[..i + 1]) == Entries(papers[..i]) + Entry(i, papers[i])
  {
    assert papers[..i + 1][..i] == papers[..i];
  }

  /** One turn of the report loop: appending entry `i` extends the entries of the papers
      before it by one paper. */
  lemma ExtendReport(head: string, papers: seq<SummarizedPaper>, i: nat, before: string, after: string)
    requires i < |papers|
    requires before == head + Entries(papers[..i])
    requires after == before + Entry(i, papers[i])
    ensures after == head + Entries(papers[..i + 1])
  {
    EntriesSnoc(papers, i);
    Associate(head, Entries(papers[..i]), Entry(i, papers[i]));
  }

  /** One extracted section under its level-3 heading. */
  function SectionLines(heading: string, body: string): string {
    "### " + heading + "\n\n" + body + "\n\n"
  }

  function OptionalSection(heading: string, body: Option<string>): string {
    if body.Some? then SectionLines(heading, body.value) else ""
  }

  /** The heading, then each section that was found, in a fixed order. */
  function SectionsBlock(sections: ExtractedSections): string {
    ExtractedHeading
    + OptionalSection("Key Methods", sections.methods)
    + OptionalSection("Performance Benchmarks", sections.performance)
    + OptionalSection("Open Research Questions", sections.openQuestions)
  }

  /** The extracted-sections part, present whenever the analysis is non-empty. */
  function ExtractedBlock(analysis: string, extract: SectionExtractor): string {
    if analysis == "" then "" else SectionsBlock(extract(analysis))
  }

  /** The report as a function of the view state (and of the section extractor). */
  function Report(state: SearchState, extract: SectionExtractor): string {
    ReportTitle(state) + AnalysisBlock(state) + Entries(state.papers.GetOr([]))
    + ExtractedBlock(Analysis(state), extract)
  }

  /** `generateMarkdownReport(state)`: appends to `report` piece by piece, one entry per
      paper inside the loop. */
  method GenerateMarkdownReport(state: SearchState, extract: SectionExtractor) returns (report: string)
    ensures report == Report(state, extract)
  {
    report := ReportTitle(state);
    var analysis := Analysis(state);
    if analysis != "" {
      report := report + ComparativeHeading;
      report := report + Paragraph(analysis);
      Associate(ReportTitle(state), ComparativeHeading, Paragraph(analysis));
      assert report == ReportTitle(state) + (ComparativeHeading + Paragraph(analysis));
      report := report + PapersComparedHeading;
      Associate(ReportTitle(state), ComparativeHeading + Paragraph(analysis), PapersComparedHeading);
    } else {
      report := report + SearchedPapersHeading;
    }
    assert report == ReportTitle(state) + AnalysisBlock(state);

    var papers := state.papers.GetOr([]);
    var i := 0;
    ghost var head := report;
    assert papers[..0] == [];
    assert report + Entries(papers[..0]) == report;
    while i < |papers|
      invariant 0 <= i <= |papers|
      invariant report == head + Entries(papers[..i])
    {
      ghost var before := report;
      report := AppendEntry(report, i, papers[i]);
      ExtendReport(head, papers, i, before, report);
      i := i + 1;
    }
    assert papers[..|papers|] == papers;

    assert report == ReportTitle(state) + AnalysisBlock(state) + Entries(papers);
    if analysis != "" {
      report := AppendExtractedSections(report, extract(analysis));
      assert SectionsBlock(extract(analysis)) == ExtractedBlock(Analysis(state), extract);
    } else {
      assert report + ExtractedBlock(analysis, extract) == report;
    }
  }

  /** The loop body of `generateMarkdownReport`: the lines of one paper, appended one
      template at a time. */
  method AppendEntry(report: string, index: nat, paper: SummarizedPaper) returns (r: string)
    ensures r == report + Entry(index, paper)
  {
    var heading := HeadingLine(index, paper);
    var upToAuthors := heading + AuthorsLine(paper);
    var upToPublished := upToAuthors + PublishedLine(paper);
    var upToUrl := upToPublished + UrlLine(paper);
    r := report + heading;
    r := r + AuthorsLine(paper);
    Associate(report, heading, AuthorsLine(paper));
    assert r == report + upToAuthors;
    r := r + PublishedLine(paper);
    Associate(report, upToAuthors, PublishedLine(paper));
    assert r == report + upToPublished;
    r := r + UrlLine(paper);
    Associate(report, upToPublished, UrlLine(paper));
    assert r == report + upToUrl;
    r := r + AbstractLines(paper);
    Associate(report, upToUrl, AbstractLines(paper));
    assert r == report + EntryHead(index, paper);
    if paper.summary != "" {
      r := r + SummaryLines(paper);
    }
    assert r == report + EntryHead(index, paper) + SummaryBlock(paper);
    Associate(report, EntryHead(index, paper), SummaryBlock(paper));
    r := r + Rule;
    Associate(report, EntryHead(index, paper) + SummaryBlock(paper), Rule);
  }

  /** The tail of `generateMarkdownReport` when there is an analysis: the heading, then each
      section whose pattern matched. */
  method AppendExtractedSections(report: string, sections: ExtractedSections) returns (r: string)
    ensures r == report + SectionsBlock(sections)
  {
    var methods := OptionalSection("Key Methods", sections.methods);
    var performance := OptionalSection("Performance Benchmarks", sections.performance);
    var openQuestions := OptionalSection("Open Research Questions", sections.openQuestions);
    r := report + ExtractedHeading;
    if sections.methods.Some? {
      r := r + SectionLines("Key Methods", sections.methods.value);
    }
    assert r == report + ExtractedHeading + methods;
    Associate(report, ExtractedHeading, methods);
    if sections.performance.Some? {
      r := r + SectionLines("Performance Benchmarks", sections.performance.value);
    }
    assert r == report + (ExtractedHeading + methods) + performance;
    Associate(report, ExtractedHeading + methods, performance);
    if sections.openQuestions.Some? {
      r := r + SectionLines("Open Research Questions", sections.openQuestions.value);
    }
    assert r == report + (ExtractedHeading + methods + performance) + openQuestions;
    Associate(report, ExtractedHeading + methods + performance, openQuestions);
  }

  /** Generating the report twice from the same state gives the same text. */
  method ReportIsReproducible(state: SearchState, extract: SectionExtractor) returns (first: string, second: string)
    ensures first == second
  {
    first := GenerateMarkdownReport(state, extract);
    second := GenerateMarkdownReport(state, extract);
  }

  /** The report opens with its title line, naming the topic or "Selected Papers". */
  lemma ReportStartsWithTitle(state: SearchState, extract: SectionExtractor)
    ensures ("# Research Report: " + TopicOrDefault(state.searchTopic) + "\n\n") <= Report(state, extract)
  {
    var title := ReportTitle(state);
    var withAnalysis := title + AnalysisBlock(state);
    var body := withAnalysis + Entries(state.papers.GetOr([]));
    PrefixOfAppend(title, AnalysisBlock(state));
    PrefixExtends(title, withAnalysis, Entries(state.papers.GetOr([])));
    PrefixExtends(title, body, ExtractedBlock(Analysis(state), extract));
  }

  /** Right after the title: the analysis verbatim between its two headings when there is
      one, the "Searched Papers" heading otherwise. */
  lemma ReportAnalysisHeadings(state: SearchState, extract: SectionExtractor)
    ensures Analysis(state) != "" ==>
      ReportTitle(state) + ComparativeHeading + Paragraph(Analysis(state)) + PapersComparedHeading
        <= Report(state, extract)
    ensures Analysis(state) == "" ==>
      ReportTitle(state) + SearchedPapersHeading <= Report(state, extract)
  {
    var title := ReportTitle(state);
    var withAnalysis := title + AnalysisBlock(state);
    var body := withAnalysis + Entries(state.papers.GetOr([]));
    PrefixOfAppend(withAnalysis, Entries(state.papers.GetOr([])));
    PrefixExtends(withAnalysis, body, ExtractedBlock(Analysis(state), extract));
    if Analysis(state) != "" {
      var paragraph := Paragraph(Analysis(state));
      Associate(title, ComparativeHeading + paragraph, PapersComparedHeading);
      Associate(title, ComparativeHeading, paragraph);
      assert withAnalysis == title + ComparativeHeading + paragraph + PapersComparedHeading;
    }
  }

  /** A common front keeps the prefix order. */
  lemma PrefixAfterCommon(c: string, a: string, b: string)
    requires a <= b
    ensures c + a <= c + b
  {
    assert (c + b)[..|c + a|] == c + b[..|a|];
  }

  /** The entries of a prefix of the list are a prefix of the entries of the list. */
  lemma {:induction false} EntriesPrefix(papers: seq<SummarizedPaper>, i: nat)
    requires i <= |papers|
    ensures Entries(papers[..i]) <= Entries(papers)
    decreases |papers|
  {
    if i < |papers| {
      var init := papers[..|papers| - 1];
      EntriesPrefix(init, i);
      assert init[..i] == papers[..i];
      PrefixExtends(Entries(papers[..i]), Entries(init), Entry(|papers| - 1, papers[|papers| - 1]));
    } else {
      assert papers[..i] == papers;
    }
  }

  /** Paper `i` is reported in position: its entry (numbered `i + 1`) follows the title,
      the analysis block and the entries of papers `0 .. i - 1`. */
  lemma ReportEntryInOrder(state: SearchState, extract: SectionExtractor, i: nat)
    requires i < |state.papers.GetOr([])|
    ensures var papers := state.papers.GetOr([]);
      (ReportTitle(state) + AnalysisBlock(state) + Entries(papers[..i]) + Entry(i, papers[i]))
        <= Report(state, extract)
  {
    var papers := state.papers.GetOr([]);
    var head := ReportTitle(state) + AnalysisBlock(state);
    EntriesSnoc(papers, i);
    Associate(head, Entries(papers[..i]), Entry(i, papers[i]));
    EntriesPrefix(papers, i + 1);
    PrefixAfterCommon(head, Entries(papers[..i + 1]), Entries(papers));
    PrefixExtends(head + Entries(papers[..i + 1]), head + Entries(papers), ExtractedBlock(Analysis(state), extract));
  }

  /** An entry opens with its numbered title heading and closes with a rule. */
  lemma EntryHeadingAndRule(index: nat, paper: SummarizedPaper)
    ensures ("### " + NatToDecimal(index + 1) + ". " + paper.title + "\n\n") <= Entry(index, paper)
    ensures EndsWith(Entry(index, paper), "---\n\n")
  {
    var heading := HeadingLine(index, paper);
    var upToAuthors := heading + AuthorsLine(paper);
    var upToPublished := upToAuthors + PublishedLine(paper);
    var upToUrl := upToPublished + UrlLine(paper);
    PrefixOfAppend(heading, AuthorsLine(paper));
    PrefixExtends(heading, upToAuthors, PublishedLine(paper));
    PrefixExtends(heading, upToPublished, UrlLine(paper));
    PrefixExtends(heading, upToUrl, AbstractLines(paper));
    PrefixExtends(heading, EntryHead(index, paper), SummaryBlock(paper));
    PrefixExtends(heading, EntryHead(index, paper) + SummaryBlock(paper), Rule);
    SuffixOfAppend(EntryHead(index, paper) + SummaryBlock(paper), Rule);
  }

  /** The summary block appears only for a non-empty summary, and then just before the
      closing rule: the entry is the summary-less entry with the block inserted. */
  lemma EntrySummaryBlock(index: nat, paper: SummarizedPaper)
    ensures paper.summary == "" ==> Entry(index, paper) == EntryHead(index, paper) + "---\n\n"
    ensures paper.summary != "" ==>
      var plain := Entry(index, paper.(summary := ""));
      |plain| >= 5 &&
      Entry(index, paper) == plain[..|plain| - 5] + "**AI Summary:**\n" + paper.summary + "\n\n" + "---\n\n"
  {
    var plain := Entry(index, paper.(summary := ""));
    assert EntryHead(index, paper.(summary := "")) == EntryHead(index, paper);
    assert plain == EntryHead(index, paper) + "---\n\n";
    assert plain[..|plain| - 5] == EntryHead(index, paper);
  }

  /** The "Extracted Sections" heading follows the entries whenever there is an analysis,
      even when no section matched; without an analysis the report ends with the entries. */
  lemma ReportExtractedHeading(state: SearchState, extract: SectionExtractor)
    ensures Analysis(state) != "" && extract(Analysis(state)) == NoSections ==>
      EndsWith(Report(state, extract), "## Extracted Sections (from Comparison)\n\n")
    ensures Analysis(state) == "" ==>
      Report(state, extract) == ReportTitle(state) + "## Searched Papers\n\n" + Entries(state.papers.GetOr([]))
  {
    var front := ReportTitle(state) + AnalysisBlock(state) + Entries(state.papers.GetOr([]));
    assert Report(state, extract) == front + ExtractedBlock(Analysis(state), extract);
  }

  // ---------------------------------------------------------------------------------
  // Which state is shown

  /** `compareState?.message && compareState.message !== searchState?.message` */
  predicate CompareActionHappened(searchState: SearchState, compareState: SearchState) {
    compareState.message.Some? && compareState.message.value != "" && compareState.message != searchState.message
  }

  /** `combinedState`: the compare state when its message is non-empty and differs from the
      search state's, the search state otherwise. */
  function CombinedState(searchState: SearchState, compareState: SearchState): (shown: SearchState)
    ensures shown == compareState || shown == searchState
    ensures compareState != searchState ==>
      (shown == compareState <==>
        compareState.message.Some? && compareState.message.value != "" && compareState.message != searchState.message)
  {
    if CompareActionHappened(searchState, compareState) then compareState else searchState
  }

  /** Every message the compare action sets is non-empty and differs from every message the
      search action sets. */
  lemma ActionMessagesDisjoint(prevSearch: Option<SearchState>, topic: Option<string>, find: FindPapers,
                               prevCompare: Option<SearchState>, selectedPapers: seq<Option<int>>, compare: ComparePapers)
    ensures var s := SearchPapersAction(prevSearch, topic, find);
      var c := ComparePapersAction(prevCompare, selectedPapers, compare);
      c.message.Some? && c.message.value != "" && c.message != s.message
  {
    var s := SearchPapersAction(prevSearch, topic, find);
    var c := ComparePapersAction(prevCompare, selectedPapers, compare);
    if TopicAccepted(topic) && find(topic.value).Success? {
      FoundIsNoCompareMessage(|find(topic.value).value|, topic.value);
    }
  }

  /** "Found ..." ends with a closing quote and a period, unlike every message of the compare
      action. */
  lemma FoundIsNoCompareMessage(count: nat, topic: string)
    ensures var found := FoundMessage(count, topic);
      found != NoPapersToCompare && found != InvalidComparison
      && found != ComparisonComplete && found != CompareFailed
  {
    var found := FoundMessage(count, topic);
    assert found[|found| - 2] == '"';
    assert NoPapersToCompare[|NoPapersToCompare| - 2] == 't';
    assert InvalidComparison[|InvalidComparison| - 2] == 't';
    assert ComparisonComplete[|ComparisonComplete| - 2] == 'e';
    assert CompareFailed[|CompareFailed| - 2] == 'n';
  }

  /** Once the compare form has produced a state, that state is shown in preference to any
      state the search form produces, so a search submitted after a compare stays hidden. */
  lemma CompareStateAlwaysShown(prevSearch: Option<SearchState>, topic: Option<string>, find: FindPapers,
                                prevCompare: Option<SearchState>, selectedPapers: seq<Option<int>>, compare: ComparePapers)
    ensures var c := ComparePapersAction(prevCompare, selectedPapers, compare);
      CombinedState(SearchPapersAction(prevSearch, topic, find), c) == c
  {
    ActionMessagesDisjoint(prevSearch, topic, find, prevCompare, selectedPapers, compare);
  }

  /** Before any compare the compare state still has no message, and the search state is shown. */
  lemma SearchShownBeforeAnyCompare(searchState: SearchState)
    ensures CombinedState(searchState, Initial) == searchState
  {
  }

  // ---------------------------------------------------------------------------------
  // Download file name

  /** The whitespace at the front of `s` removed. */
  function SkipWhitespace(s: string): (rest: string)
    ensures |rest| <= |s| && rest == s[|s| - |rest|..]
    ensures rest == [] || !IsJsWhitespace(rest[0])
    ensures s != [] && IsJsWhitespace(s[0]) ==> |rest| < |s|
    ensures forall k :: 0 <= k < |s| - |rest| ==> IsJsWhitespace(s[k])
    decreases |s|
  {
    if s != [] && IsJsWhitespace(s[0]) then
      var rest := SkipWhitespace(s[1..]);
      assert s[1..][|s| - 1 - |rest|..] == s[|s| - |rest|..];
      assert forall k :: 1 <= k < |s| - |rest| ==> s[k] == s[1..][k - 1];
      rest
    else
      s
  }

  /** `s.replace(/\s+/g, '-')`: each maximal run of whitespace becomes one hyphen; no
      whitespace is left. */
  function HyphenateWhitespace(s: string): (r: string)
    ensures forall k :: 0 <= k < |r| ==> !IsJsWhitespace(r[k])
    ensures |r| <= |s|
    ensures r == [] <==> s == []
    decreases |s|
  {
    if s == [] then []
    else if IsJsWhitespace(s[0]) then "-" + HyphenateWhitespace(SkipWhitespace(s))
    else [s[0]] + HyphenateWhitespace(s[1..])
  }

  /** Only hyphens are new: a string without upper-case letters gives one without. */
  lemma {:induction false} HyphenateAddsNoUpper(s: string)
    requires forall k :: 0 <= k < |s| ==> !IsAsciiUpper(s[k])
    ensures forall k :: 0 <= k < |HyphenateWhitespace(s)| ==> !IsAsciiUpper(HyphenateWhitespace(s)[k])
    decreases |s|
  {
    if s != [] {
      if IsJsWhitespace(s[0]) {
        var rest := SkipWhitespace(s);
        assert forall k :: 0 <= k < |rest| ==> rest[k] == s[|s| - |rest| + k];
        HyphenateAddsNoUpper(rest);
      } else {
        HyphenateAddsNoUpper(s[1..]);
      }
    }
  }

  /** A maximal run of whitespace in front becomes exactly one hyphen, and the rest is
      hyphenated on its own. */
  lemma HyphenateRun(ws: string, s: string)
    requires ws != [] && forall k :: 0 <= k < |ws| ==> IsJsWhitespace(ws[k])
    requires s == [] || !IsJsWhitespace(s[0])
    ensures HyphenateWhitespace(ws + s) == "-" + HyphenateWhitespace(s)
  {
    var joined := ws + s;
    assert joined[0] == ws[0];
    var rest := SkipWhitespace(joined);
    assert forall k :: 0 <= k < |ws| ==> joined[k] == ws[k];
    assert forall k :: |ws| <= k < |joined| ==> joined[k] == s[k - |ws|];
    var p := |joined| - |rest|;
    assert rest != [] ==> rest[0] == joined[p];
    assert s != [] ==> joined[|ws|] == s[0];
    if p < |ws| {
      assert false;
    } else if p > |ws| {
      assert false;
    }
    assert rest == joined[|ws|..] == s;
  }

  /** A run of whitespace is skipped entirely. */
  lemma SkipAllWhitespace(s: string)
    requires forall k :: 0 <= k < |s| ==> IsJsWhitespace(s[k])
    ensures SkipWhitespace(s) == []
  {

  }

  /** A string without whitespace is left as it is. */
  lemma {:induction false} HyphenateKeepsWhitespaceFree(s: string)
    requires forall k :: 0 <= k < |s| ==> !IsJsWhitespace(s[k])
    ensures HyphenateWhitespace(s) == s
    decreases |s|
  {
    if s != [] {
      HyphenateKeepsWhitespaceFree(s[1..]);
    }
  }

  /** A whitespace-free word in front passes through unchanged. */
  lemma {:induction false} HyphenateAfterWord(word: string, s: string)
    requires forall k :: 0 <= k < |word| ==> !IsJsWhitespace(word[k])
    ensures HyphenateWhitespace(word + s) == word + HyphenateWhitespace(s)
    decreases |word|
  {
    if word == [] {
      assert word + s == s;
    } else {
      var joined := word + s;
      var tail := word[1..];
      assert joined[0] == word[0] && !IsJsWhitespace(joined[0]);
      assert joined[1..] == tail + s;
      assert forall k :: 0 <= k < |tail| ==> tail[k] == word[k + 1];
      HyphenateAfterWord(tail, s);
      calc {
        HyphenateWhitespace(joined);
        [word[0]] + HyphenateWhitespace(tail + s);
        [word[0]] + (tail + HyphenateWhitespace(s));
        { Associate([word[0]], tail, HyphenateWhitespace(s)); }
        [word[0]] + tail + HyphenateWhitespace(s);
        { assert [word[0]] + tail == word; }
        word + HyphenateWhitespace(s);
      }
    }
  }

  /** Words separated by single spaces come out separated by single hyphens. */
  lemma {:induction false} HyphenateSpacedWords(words: seq<string>)
    requires words != []
    requires forall i :: 0 <= i < |words| ==> words[i] != []
    requires forall i, k :: 0 <= i < |words| && 0 <= k < |words[i]| ==> !IsJsWhitespace(words[i][k])
    ensures HyphenateWhitespace(Join(words, " ")) == Join(words, "-")
    decreases |words|
  {
    if |words| == 1 {
      HyphenateKeepsWhitespaceFree(words[0]);
    } else {
      var rest := Join(words[1..], " ");
      HyphenateSpacedWords(words[1..]);
      assert words[1..][0] == words[1];
      assert words[1] <= rest;
      assert rest[0] == words[1][0];
      assert Join(words, " ") == words[0] + (" " + rest);
      HyphenateAfterWord(words[0], " " + rest);
      assert (" " + rest)[1..] == rest;
      assert SkipWhitespace(" " + rest) == rest;
      assert Join(words, "-") == words[0] + ("-" + Join(words[1..], "-"));
    }
  }

  /** The topic part of the file name: lower-cased, whitespace runs hyphenated. */
  function TopicSlug(topic: string): (slug: string)
    ensures slug == [] <==> topic == []
    ensures |slug| <= |topic|
    ensures forall k :: 0 <= k < |slug| ==> !IsJsWhitespace(slug[k]) && !IsAsciiUpper(slug[k])
  {
    var lower := ToLowerCase(topic);
    HyphenateAddsNoUpper(lower);
    HyphenateWhitespace(lower)
  }

  /** The slug is the topic lower-cased with each maximal whitespace run turned into one
      hyphen: a whitespace-free word, then a run, give the lower-cased word, one hyphen, and
      the slug of what follows. With an empty word this covers a leading run. */
  lemma TopicSlugWordThenRun(word: string, ws: string, s: string)
    requires forall k :: 0 <= k < |word| ==> !IsJsWhitespace(word[k])
    requires ws != [] && forall k :: 0 <= k < |ws| ==> IsJsWhitespace(ws[k])
    requires s == [] || !IsJsWhitespace(s[0])
    ensures TopicSlug(word + ws + s) == ToLowerCase(word) + "-" + TopicSlug(s)
  {
    var lw, lws, ls := ToLowerCase(word), ToLowerCase(ws), ToLowerCase(s);
    ToLowerCaseAppend(word + ws, s);
    ToLowerCaseAppend(word, ws);
    assert ToLowerCase(word + ws + s) == lw + (lws + ls);
    HyphenateAfterWord(lw, lws + ls);
    HyphenateRun(lws, ls);
    Associate(lw, "-", HyphenateWhitespace(ls));
  }

  /** Slugging a slug changes nothing. */
  lemma TopicSlugIdempotent(topic: string)
    ensures TopicSlug(TopicSlug(topic)) == TopicSlug(topic)
  {
    var slug := TopicSlug(topic);
    assert ToLowerCase(slug) == slug;
    HyphenateKeepsWhitespaceFree(slug);
  }

  /** The file name `handleDownloadReport` offers: the topic's slug, or "research-report"
      when the slug is empty, with ".md" appended. */
  function DownloadFilename(searchTopic: Option<string>): (name: string)
    ensures EndsWith(name, ".md")
    ensures searchTopic.None? || searchTopic.value == "" ==> name == "research-report.md"
    ensures searchTopic.Some? && searchTopic.value != "" ==> name == TopicSlug(searchTopic.value) + ".md"
    ensures forall k :: 0 <= k < |name| ==> !IsJsWhitespace(name[k])
  {
    var slug := if searchTopic.Some? then TopicSlug(searchTopic.value) else "";
    (if slug == "" then "research-report" else slug) + ".md"
  }

  /** A topic made only of whitespace is not empty, so it does not fall back to the default
      name: its run of whitespace becomes the single hyphen of "-.md". */
  lemma WhitespaceTopicFilename(topic: string)
    requires topic != []
    requires forall k :: 0 <= k < |topic| ==> IsJsWhitespace(topic[k])
    ensures DownloadFilename(Some(topic)) == "-.md"
  {
    WhitespaceTopicSlug(topic);
  }

  lemma WhitespaceTopicSlug(topic: string)
    requires topic != []
    requires forall k :: 0 <= k < |topic| ==> IsJsWhitespace(topic[k])
    ensures TopicSlug(topic) == "-"
  {
    var lower := ToLowerCase(topic);
    assert IsJsWhitespace(lower[0]);
    SkipAllWhitespace(lower);
  }

  /** A two-word topic gives a hyphenated lower-case file name. */
  lemma DiffusionModelsFilename()
    ensures DownloadFilename(Some("Diffusion Models")) == "diffusion-models.md"
  {
    DiffusionModelsLowered();
    DiffusionModelsHyphenated();
  }

  lemma DiffusionModelsLowered()
    ensures ToLowerCase("Diffusion Models") == "diffusion models"
  {
  }

  lemma DiffusionModelsHyphenated()
    ensures HyphenateWhitespace("diffusion models") == "diffusion-models"
  {
    var words := ["diffusion", "models"];
    assert words[1..] == ["models"];
    assert Join(words, " ") == "diffusion models";
    assert Join(words, "-") == "diffusion-models";
    HyphenateSpacedWords(words);
  }

  // ---------------------------------------------------------------------------------
  // Selected papers

  /** The value a checkbox reports: `true`, `false` or `'indeterminate'`. */
  datatype CheckedState = Checked | Unchecked | Indeterminate

  /** `handleCheckboxChange(index, checked)`: the next selection set. */
  function HandleCheckboxChange(selected: set<int>, index: int, checked: CheckedState): (next: set<int>)
    ensures index in next <==> checked == Checked
    ensures forall j :: j != index ==> (j in next <==> j in selected)
  {
    if checked == Checked then selected + {index} else selected - {index}
  }

  /** Only the last change to a checkbox matters. */
  lemma CheckboxLastChangeWins(selected: set<int>, index: int, first: CheckedState, second: CheckedState)
    ensures HandleCheckboxChange(HandleCheckboxChange(selected, index, first), index, second)
      == HandleCheckboxChange(selected, index, second)
  {
  }

  /** Changes to different checkboxes commute. */
  lemma CheckboxChangesCommute(selected: set<int>, i: int, ci: CheckedState, j: int, cj: CheckedState)
    requires i != j
    ensures HandleCheckboxChange(HandleCheckboxChange(selected, i, ci), j, cj)
      == HandleCheckboxChange(HandleCheckboxChange(selected, j, cj), i, ci)
  {
  }
}
