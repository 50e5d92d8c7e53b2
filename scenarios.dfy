/** End-to-end runs of the two forms over the sample retrieval service: a search wired to the
    search-and-summarise flow, then comparisons of its results. */
module Scenarios {
  import opened Wrappers
  import opened Strings
  import opened Arxiv
  import opened FindRelevantPapers
  import opened Actions
  import opened Page

  /** A model that answers every prompt with a structured output. */
  ghost predicate AlwaysSummarizes(model: Summarizer) {
    forall prompt :: model(prompt).Success? && model(prompt).value.Some?
  }

  /** The search form's collaborator: the search-and-summarise flow over `model`. */
  function FlowSearch(model: Summarizer): FindPapers {
    topic => FindRelevantPapersFlow(topic, model)
  }

  const Topic := "diffusion models"

  /** The state after searching for "diffusion models" from `prevState`. */
  function SearchedState(prevState: Option<SearchState>, model: Summarizer): SearchState {
    SearchPapersAction(prevState, Some(Topic), FlowSearch(model))
  }

  /** Searching "diffusion models" with a model that always answers: the two sample papers,
      in retrieval order, each with its summary, under a "Found 2 papers" message. */
  lemma DiffusionModelsSearch(prevState: Option<SearchState>, model: Summarizer)
    requires AlwaysSummarizes(model)
    ensures var s := SearchedState(prevState, model);
      && s.papers.Some? && |s.papers.value| == 2
      && StripSummary(s.papers.value[0]) == SearchArxiv(Topic)[0]
      && StripSummary(s.papers.value[1]) == SearchArxiv(Topic)[1]
      && s.papers.value[0].summary == model(SummarizePrompt(SearchArxiv(Topic)[0])).value.value.summary
      && s.papers.value[1].summary == model(SummarizePrompt(SearchArxiv(Topic)[1])).value.value.summary
      && s.message == Some(FoundMessage(2, Topic))
      && "Found 2 papers" <= s.message.value
      && s.searchTopic == Some(Topic) && s.comparison == None && s.errors == map[]
  {
    var papers := SearchArxiv(Topic);
    assert SummarizePaper(papers[0], model).Success? && SummarizePaper(papers[1], model).Success?;
    assert Utf16Length(Topic) >= 3;
    FoundTwoPapers();
  }

  lemma FoundTwoPapers()
    ensures "Found 2 papers" <= FoundMessage(2, Topic)
  {
    var related := " papers related to \"";
    var closing := "\".";
    var tail := related + Topic + closing;
    assert " papers" <= related;
    PrefixExtends(" papers", related, Topic);
    PrefixExtends(" papers", related + Topic, closing);
    PrefixAfterCommon("Found 2", " papers", tail);
    assert NatToDecimal(2) == "2";
    var count := "Found " + "2";
    Associate(count, related, Topic);
    Associate(count, related + Topic, closing);
    assert FoundMessage(2, Topic) == count + tail;
    assert count == "Found 2";
  }

  /** Comparing the two found papers: the collaborator is asked about both sample papers,
      without summaries, under the searched topic; on success the comparison is shown and
      the paper list is kept. */
  lemma CompareBothPapers(prevState: Option<SearchState>, model: Summarizer, compare: ComparePapers)
    requires AlwaysSummarizes(model)
    ensures var s := SearchedState(prevState, model);
      var request := CompareRequest(Some(s), [Some(0), Some(1)]);
      && request == ComparePapersInput(Topic, SearchArxiv(Topic))
      && (compare(request).Success? ==>
            var c := ComparePapersAction(Some(s), [Some(0), Some(1)], compare);
            && c.papers == s.papers && c.searchTopic == s.searchTopic
            && c.comparison == Some(compare(request).value)
            && c.message == Some(ComparisonComplete) && c.errors == map[])
  {
    BothPapersRequested(prevState, model);
  }

  /** Indices 0 and 1 select both found papers, and the request carries them stripped. */
  lemma BothPapersRequested(prevState: Option<SearchState>, model: Summarizer)
    requires AlwaysSummarizes(model)
    ensures var s := SearchedState(prevState, model);
      && HasPapers(s)
      && |Selection(Some(s), [Some(0), Some(1)])| == 2
      && CompareRequest(Some(s), [Some(0), Some(1)]) == ComparePapersInput(Topic, SearchArxiv(Topic))
  {
    DiffusionModelsSearch(prevState, model);
    var s := SearchedState(prevState, model);
    SelectBoth(s.papers.value);
    StrippedPair(Topic, s.papers.value, SearchArxiv(Topic));
  }

  /** Of a two-paper list, indices 0 and 1 select the whole list. */
  lemma SelectBoth(papers: seq<SummarizedPaper>)
    requires |papers| == 2
    ensures ResolveSelection(papers, [Some(0), Some(1)]) == papers
  {
    ResolveSelectionInRange(papers, [Some(0), Some(1)]);
  }

  /** Two summarised papers whose stripped forms are two retrieved papers make a request for
      exactly those. */
  lemma StrippedPair(topic: string, papers: seq<SummarizedPaper>, retrieved: seq<ArxivPaper>)
    requires |papers| == 2 && |retrieved| == 2
    requires StripSummary(papers[0]) == retrieved[0] && StripSummary(papers[1]) == retrieved[1]
    ensures ComparisonInput(topic, papers) == ComparePapersInput(topic, retrieved)
  {
    assert ComparisonInput(topic, papers).papers == retrieved;
  }

  /** Selecting a single paper is refused with the schema's message, and the comparison stays
      as it was: unset after a fresh search. */
  lemma CompareOnePaper(prevState: Option<SearchState>, model: Summarizer, compare: ComparePapers)
    requires AlwaysSummarizes(model)
    ensures var s := SearchedState(prevState, model);
      var c := ComparePapersAction(Some(s), [Some(0)], compare);
      && c.message == Some(InvalidComparison)
      && c.errors == map["papers" := [SelectAtLeastTwo]]
      && c.comparison == None
      && c.papers == s.papers
  {
    DiffusionModelsSearch(prevState, model);
    var s := SearchedState(prevState, model);
    ResolveSelectionInRange(s.papers.value, [Some(0)]);
  }

  /** Out-of-range and unreadable indices are dropped before the count is taken: with only
      index 1 resolvable, the selection is refused as a single paper. */
  lemma CompareDropsUnresolvable(prevState: Option<SearchState>, model: Summarizer, compare: ComparePapers)
    requires AlwaysSummarizes(model)
    ensures var s := SearchedState(prevState, model);
      ComparePapersAction(Some(s), [Some(5), Some(1), None, Some(-1)], compare).message == Some(InvalidComparison)
  {
    DiffusionModelsSearch(prevState, model);
    var s := SearchedState(prevState, model);
    var papers := s.papers.value;
    var indices: seq<Option<int>> := [Some(5), Some(1), None, Some(-1)];
    assert indices[1..][1..][1..][1..] == [];
    assert |ResolveSelection(papers, indices)| == 1;
  }

  /** The summary is any string the model returns, the empty one included: the flow does not
      promise non-empty summaries, and the report then omits the summary block. */
  lemma EmptySummaryKept(model: Summarizer)
    requires forall prompt :: model(prompt) == Success(Some(SummarizePaperOutput("")))
    ensures var s := SearchedState(None, model);
      && s.papers.Some? && |s.papers.value| == 2
      && s.papers.value[0].summary == ""
      && SummaryBlock(s.papers.value[0]) == ""
  {
    DiffusionModelsSearch(None, model);
  }

  /** A paper by three authors lists them as "A, B, C" both in the summarising prompt and in
      the report. */
  lemma ThreeAuthorsRendered(paper: ArxivPaper, summary: string)
    requires paper.authors == ["A", "B", "C"]
    ensures EachAuthor(paper.authors, 0) == "A, B, C"
    ensures AuthorsLine(WithSummary(paper, summary)) == "**Authors:** " + "A, B, C" + "\n"
  {
    JoinThreeAuthors();
    EachAuthorIsJoin(paper.authors, 0);
    assert paper.authors[0..] == paper.authors;
  }

  /** A compare started from the page's initial state finds no papers, and a compare started
      from the state it leaves behind finds none either: the compare action only ever copies
      the paper list of its own previous state. */
  lemma ComparesFromInitialState(first: seq<Option<int>>, second: seq<Option<int>>, compare: ComparePapers)
    ensures var s1 := ComparePapersAction(Some(Initial), first, compare);
      var s2 := ComparePapersAction(Some(s1), second, compare);
      && s1 == Initial.(message := Some(NoPapersToCompare))
      && s2 == s1
  {
  }
}
