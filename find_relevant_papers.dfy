/** The search-and-summarise flow: retrieve papers for a topic, then ask the model for a
    summary of each one, and return the papers with their summaries attached. */
module FindRelevantPapers {
  import opened Wrappers
  import opened Strings
  import opened Arxiv

  /** One element of the flow's output: the paper's own fields plus the model's summary,
      which the output schema requires to be a string. */
  datatype SummarizedPaper = SummarizedPaper(
    title: string,
    abstractText: string,
    url: string,
    authors: seq<string>,
    published: string,
    summary: string)

  /** `{...paper, summary}`: a new record, the paper's fields unchanged. */
  function WithSummary(paper: ArxivPaper, summary: string): (r: SummarizedPaper)
    ensures r.summary == summary
    ensures r.title == paper.title && r.abstractText == paper.abstractText && r.url == paper.url
    ensures r.authors == paper.authors && r.published == paper.published
  {
    SummarizedPaper(paper.title, paper.abstractText, paper.url, paper.authors, paper.published, summary)
  }

  /** The paper without its summary, as the comparison flow's input schema wants it. */
  function StripSummary(p: SummarizedPaper): (r: ArxivPaper)
    ensures r.title == p.title && r.abstractText == p.abstractText && r.url == p.url
    ensures r.authors == p.authors && r.published == p.published
  {
    ArxivPaper(p.title, p.abstractText, p.url, p.authors, p.published)
  }

  /** Attaching a summary and stripping it again gives back the retrieved paper. */
  lemma StripWithSummary(paper: ArxivPaper, summary: string)
    ensures StripSummary(WithSummary(paper, summary)) == paper
  {
  }

  /** A summarised paper is its stripped paper with its own summary attached. */
  lemma WithStrippedSummary(p: SummarizedPaper)
    ensures WithSummary(StripSummary(p), p.summary) == p
  {
  }

  /** Output schema of the per-paper prompt. */
  datatype SummarizePaperOutput = SummarizePaperOutput(summary: string)

  /** One model call on a rendered prompt. It may reject, or resolve with no structured
      output (`output` is null). */
  type Summarizer = string -> Result<Option<SummarizePaperOutput>>

  const SummarizeIntro := "Summarize the following research paper, focusing on the key findings and contributions:\n\n"

  /** The template's `{{#each authors}}{{{this}}}{{#unless @last}}, {{/unless}}{{/each}}`,
      from position `i` on. */
  function EachAuthor(authors: seq<string>, i: nat): (r: string)
    ensures i >= |authors| ==> r == ""
    ensures i < |authors| ==> authors[i] <= r
    decreases |authors| - i
  {
    if i >= |authors| then ""
    else authors[i] + (if i == |authors| - 1 then "" else ", ") + EachAuthor(authors, i + 1)
  }

  /** The template loop renders the author list exactly as `authors.join(", ")` does:
      comma-separated with no trailing separator. */
  lemma {:induction false} EachAuthorIsJoin(authors: seq<string>, i: nat)
    requires i <= |authors|
    ensures EachAuthor(authors, i) == Join(authors[i..], ", ")
    decreases |authors| - i
  {
    if i < |authors| {
      EachAuthorIsJoin(authors, i + 1);
      if i < |authors| - 1 {
        assert authors[i..][1..] == authors[i + 1..];
      } else {
        assert authors[i..] == [authors[i]];
      }
    }
  }

  /** The `summarizePaper` prompt for one paper. Only the paper's fields are interpolated. */
  function SummarizePrompt(paper: ArxivPaper): string {
    SummarizeIntro
    + "Title: " + paper.title
    + "\nAbstract: " + paper.abstractText
    + "\nURL: " + paper.url
    + "\nAuthors: " + EachAuthor(paper.authors, 0)
    + "\nPublished: " + paper.published
  }

  /** The prompt's author line is the comma-joined author list. */
  lemma PromptJoinsAuthors(paper: ArxivPaper)
    ensures SummarizePrompt(paper) ==
      SummarizeIntro
      + "Title: " + paper.title
      + "\nAbstract: " + paper.abstractText
      + "\nURL: " + paper.url
      + "\nAuthors: " + Join(paper.authors, ", ")
      + "\nPublished: " + paper.published
  {
    EachAuthorIsJoin(paper.authors, 0);
    assert paper.authors[0..] == paper.authors;
  }

  /** `summarizePaper(paper)` then `output!.summary`: a missing output fails like a
      rejected call. */
  function SummarizePaper(paper: ArxivPaper, model: Summarizer): (r: Result<string>)
    ensures r.Success? <==> model(SummarizePrompt(paper)).Success? && model(SummarizePrompt(paper)).value.Some?
    ensures r.Success? ==> r.value == model(SummarizePrompt(paper)).value.value.summary
  {
    match model(SummarizePrompt(paper))
    case Success(Some(output)) => Success(output.summary)
    case Success(None) => Failure
    case Failure => Failure
  }

  /** `Promise.all(papers.map(...))`: every paper summarised, in retrieval order; one
      failure fails the whole batch and no partial list is returned. */
  function SummarizeAll(papers: seq<ArxivPaper>, model: Summarizer): (r: Result<seq<SummarizedPaper>>)
    ensures r.Success? <==> forall i :: 0 <= i < |papers| ==> SummarizePaper(papers[i], model).Success?
    ensures r.Success? ==> |r.value| == |papers|
    ensures r.Success? ==> forall i :: 0 <= i < |papers| ==>
      r.value[i] == WithSummary(papers[i], SummarizePaper(papers[i], model).value)
    decreases |papers|
  {
    if papers == [] then Success([])
    else
      match SummarizePaper(papers[0], model)
      case Failure => Failure
      case Success(summary) =>
        match SummarizeAll(papers[1..], model)
        case Failure => Failure
        case Success(rest) => Success([WithSummary(papers[0], summary)] + rest)
  }

  /** The batch depends on the model only through the prompts of the retrieved papers:
      two models that answer those prompts alike give the same outcome. */
  lemma SummarizeAllSeesOnlyPaperPrompts(papers: seq<ArxivPaper>, model1: Summarizer, model2: Summarizer)
    requires forall i :: 0 <= i < |papers| ==> model1(SummarizePrompt(papers[i])) == model2(SummarizePrompt(papers[i]))
    ensures SummarizeAll(papers, model1) == SummarizeAll(papers, model2)
  {
    var r1, r2 := SummarizeAll(papers, model1), SummarizeAll(papers, model2);
    if r1.Success? {
      assert r1.value == r2.value;
    }
  }

  /** `findRelevantPapersFlow({topic})`: retrieval, then the summaries. The output keeps the
      retrieved papers' order and fields and adds a summary to each. */
  function FindRelevantPapersFlow(topic: string, model: Summarizer): (r: Result<seq<SummarizedPaper>>)
    ensures r.Success? <==> forall i :: 0 <= i < |SearchArxiv(topic)| ==> SummarizePaper(SearchArxiv(topic)[i], model).Success?
    ensures r.Success? ==> |r.value| == |SearchArxiv(topic)|
    ensures r.Success? ==> forall i :: 0 <= i < |r.value| ==>
      StripSummary(r.value[i]) == SearchArxiv(topic)[i]
      && r.value[i].summary == SummarizePaper(SearchArxiv(topic)[i], model).value
  {
    SummarizeAll(SearchArxiv(topic), model)
  }

  /** The topic reaches retrieval only: since retrieval ignores it, so does the flow. */
  lemma FlowIgnoresTopic(topic1: string, topic2: string, model: Summarizer)
    ensures FindRelevantPapersFlow(topic1, model) == FindRelevantPapersFlow(topic2, model)
  {
    SearchArxivIgnoresTopic(topic1, topic2);
  }
}
