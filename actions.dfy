/** The two server actions behind the page's forms. Each one takes the previous view state,
    the submitted form fields and the outcome of its collaborator, and builds a new view
    state. */
module Actions {
  import opened Wrappers
  import opened Strings
  import opened Arxiv
  import opened FindRelevantPapers

  /** Output schema of the comparison flow. */
  datatype ComparePapersOutput = ComparePapersOutput(analysis: string)

  /** Input schema of the comparison flow: a focus topic and papers without summaries. */
  datatype ComparePapersInput = ComparePapersInput(topic: string, papers: seq<ArxivPaper>)

  /** `findRelevantPapers({topic})`, awaited. */
  type FindPapers = string -> Result<seq<SummarizedPaper>>

  /** `comparePapers(input)`, awaited. A missing model output (`output!`) counts as a rejection. */
  type ComparePapers = ComparePapersInput -> Result<ComparePapersOutput>

  /** The view state both actions return. An absent `errors` object is the empty map. */
  datatype SearchState = SearchState(
    message: Option<string>,
    errors: map<string, seq<string>>,
    papers: Option<seq<SummarizedPaper>>,
    comparison: Option<ComparePapersOutput>,
    searchTopic: Option<string>)

  /** The page's initial state; a `null` previous state reads the same through `?.`. */
  const Initial := SearchState(None, map[], None, None, None)

  /** The previous state as the actions read it. */
  function Prior(prevState: Option<SearchState>): SearchState {
    prevState.GetOr(Initial)
  }

  const InvalidSearchTopic := "Invalid search topic."
  const TopicTooShort := "Topic must be at least 3 characters long."
  /** The schema library's message when the `topic` field is missing from the form. This is
      zod's default wording for a null string in the version assumed here; the page's own form
      always sends the field. */
  const TopicMissing := "Expected string, received null"
  const SearchFailed := "Failed to search for papers. Please try again."
  const NoPapersToCompare := "No papers available to compare. Please search first."
  const InvalidComparison := "Invalid comparison request."
  const SelectAtLeastTwo := "Please select at least two papers to compare."
  const ComparisonComplete := "Comparison complete."
  const CompareFailed := "Failed to compare papers. Please try again."
  const DefaultTopic := "Selected Papers"

  /** `schema.safeParse(...)`: the typed data, or the flattened field errors. */
  datatype Validation<T> = Valid(data: T) | Invalid(fieldErrors: map<string, seq<string>>)

  /** A topic the search schema accepts: present and at least 3 UTF-16 code units long. */
  predicate TopicAccepted(topic: Option<string>) {
    topic.Some? && Utf16Length(topic.value) >= 3
  }

  /** `min(3)` counts UTF-16 code units: two characters outside the Basic Multilingual Plane
      are long enough, one is not. */
  lemma AstralTopicLength(c: char, d: char)
    requires c as int > 0xFFFF && d as int > 0xFFFF
    ensures TopicAccepted(Some([c, d]))
    ensures !TopicAccepted(Some([c]))
  {
    Utf16LengthChar(c);
    Utf16LengthChar(d);
    Utf16LengthAppend([c], [d]);
    assert [c] + [d] == [c, d];
  }

  /** `SearchSchema.safeParse({topic})`. */
  function ValidateSearch(topic: Option<string>): (v: Validation<string>)
    ensures v.Valid? <==> TopicAccepted(topic)
    ensures v.Valid? ==> v.data == topic.value
    ensures v.Invalid? ==> v.fieldErrors.Keys == {"topic"}
    ensures v.Invalid? && topic.Some? ==> v.fieldErrors["topic"] == [TopicTooShort]
    ensures v.Invalid? && topic.None? ==> v.fieldErrors["topic"] == [TopicMissing]
  {
    match topic
    case None => Invalid(map["topic" := [TopicMissing]])
    case Some(t) =>
      if Utf16Length(t) < 3 then Invalid(map["topic" := [TopicTooShort]]) else Valid(t)
  }

  /** `Found ${papers.length} papers related to "${topic}".` */
  function FoundMessage(count: nat, topic: string): (m: string)
    ensures "Found " <= m
    ensures |m| >= 2 && m[|m| - 2..] == "\"."
  {
    "Found " + NatToDecimal(count) + " papers related to \"" + topic + "\"."
  }

  /** `searchPapersAction(prevState, formData)`. */
  function SearchPapersAction(prevState: Option<SearchState>, topic: Option<string>, find: FindPapers): (r: SearchState)
    // invalid topic: a `topic` field error; the previous results and topic are kept
    ensures !TopicAccepted(topic) ==>
      && r.message == Some(InvalidSearchTopic)
      && r.errors.Keys == {"topic"}
      && r.errors["topic"] == [if topic.None? then TopicMissing else TopicTooShort]
      && r.papers == Prior(prevState).papers
      && r.comparison == Prior(prevState).comparison
      && r.searchTopic == Prior(prevState).searchTopic
    // success: the retrieved list replaces the old one and the old comparison is cleared
    ensures TopicAccepted(topic) && find(topic.value).Success? ==>
      && r.message == Some(FoundMessage(|find(topic.value).value|, topic.value))
      && r.errors == map[]
      && r.papers == Some(find(topic.value).value)
      && r.comparison == None
      && r.searchTopic == topic
    // collaborator failure: old results kept, but the topic is the new one
    ensures TopicAccepted(topic) && find(topic.value).Failure? ==>
      && r.message == Some(SearchFailed)
      && r.errors == map[]
      && r.papers == Prior(prevState).papers
      && r.comparison == Prior(prevState).comparison
      && r.searchTopic == topic
  {
    var prior := Prior(prevState);
    match ValidateSearch(topic)
    case Invalid(fieldErrors) =>
      SearchState(Some(InvalidSearchTopic), fieldErrors, prior.papers, prior.comparison, prior.searchTopic)
    case Valid(t) =>
      match find(t)
      case Success(papers) =>
        SearchState(Some(FoundMessage(|papers|, t)), map[], Some(papers), None, Some(t))
      case Failure =>
        SearchState(Some(SearchFailed), map[], prior.papers, prior.comparison, Some(t))
  }

  /** A rejected topic never reaches the search collaborator. */
  lemma SearchRejectionSkipsCollaborator(prevState: Option<SearchState>, topic: Option<string>, find1: FindPapers, find2: FindPapers)
    requires !TopicAccepted(topic)
    ensures SearchPapersAction(prevState, topic, find1) == SearchPapersAction(prevState, topic, find2)
  {
  }

  /** An accepted topic is the only thing sent to the search collaborator, verbatim. */
  lemma SearchSendsTopicOnly(prevState: Option<SearchState>, topic: Option<string>, find1: FindPapers, find2: FindPapers)
    requires TopicAccepted(topic) && find1(topic.value) == find2(topic.value)
    ensures SearchPapersAction(prevState, topic, find1) == SearchPapersAction(prevState, topic, find2)
  {
  }

  /** A run of digits followed by text that starts with a non-digit is determined by the
      concatenation. */
  lemma DigitsBeforeText(a: string, b: string, post: string)
    requires forall k :: 0 <= k < |a| ==> IsDigit(a[k])
    requires forall k :: 0 <= k < |b| ==> IsDigit(b[k])
    requires post != [] && !IsDigit(post[0])
    requires a + post == b + post
    ensures a == b
  {
    var x := a + post;
    assert !IsDigit(x[|a|]) && forall k :: 0 <= k < |a| ==> IsDigit(x[k]);
    assert !IsDigit(x[|b|]) && forall k :: 0 <= k < |b| ==> IsDigit(x[k]);
    assert |a| == |b|;
    assert a == x[..|a|] && b == x[..|b|];
  }

  /** The success message names the number of papers found: distinct counts give distinct
      messages. */
  lemma FoundMessageNamesCount(m: nat, n: nat, topic: string)
    requires FoundMessage(m, topic) == FoundMessage(n, topic)
    ensures m == n
  {
    var post := " papers related to \"" + topic + "\".";
    FoundMessageAfterFound(m, topic, post);
    FoundMessageAfterFound(n, topic, post);
    DigitsBeforeText(NatToDecimal(m), NatToDecimal(n), post);
    DecimalInjective(m, n);
  }

  /** After "Found " the message is the count's digits, then the rest of the sentence. */
  lemma FoundMessageAfterFound(count: nat, topic: string, post: string)
    requires post == " papers related to \"" + topic + "\"."
    ensures FoundMessage(count, topic)[|"Found "|..] == NatToDecimal(count) + post
  {
    var pre, a := "Found ", NatToDecimal(count);
    assert FoundMessage(count, topic) == pre + (a + post);
    assert a + post == (pre + (a + post))[|pre|..];
  }

  /** `prevState.papers?.[index]`, kept only when defined: an index that is absent (not a
      number, or fractional), negative or past the end resolves to nothing. */
  function ResolveIndex(papers: seq<SummarizedPaper>, index: Option<int>): (r: seq<SummarizedPaper>)
    ensures |r| <= 1
    ensures r != [] <==> index.Some? && 0 <= index.value < |papers|
    ensures r != [] ==> r[0] == papers[index.value]
  {
    if index.Some? && 0 <= index.value < |papers| then [papers[index.value]] else []
  }

  /** `selectedIndices.map(i => papers[i]).filter(p => p !== undefined)`: the selected papers
      in submitted order, unresolvable indices dropped. */
  function ResolveSelection(papers: seq<SummarizedPaper>, indices: seq<Option<int>>): (selected: seq<SummarizedPaper>)
    ensures |selected| <= |indices|
    ensures forall k :: 0 <= k < |selected| ==> selected[k] in papers
    decreases |indices|
  {
    if indices == [] then [] else ResolveIndex(papers, indices[0]) + ResolveSelection(papers, indices[1..])
  }

  /** Every selected paper is the paper at one of the submitted indices, that index being
      present and in range. */
  lemma {:induction false} ResolveSelectionSources(papers: seq<SummarizedPaper>, indices: seq<Option<int>>, k: nat)
      returns (j: nat)
    requires k < |ResolveSelection(papers, indices)|
    ensures j < |indices| && indices[j].Some? && 0 <= indices[j].value < |papers|
    ensures ResolveSelection(papers, indices)[k] == papers[indices[j].value]
    decreases |indices|
  {
    var first := ResolveIndex(papers, indices[0]);
    var rest := ResolveSelection(papers, indices[1..]);
    assert ResolveSelection(papers, indices) == first + rest;
    if k < |first| {
      j := 0;
    } else {
      var j' := ResolveSelectionSources(papers, indices[1..], k - |first|);
      j := j' + 1;
      assert indices[j] == indices[1..][j'];
    }
  }

  /** Resolution works index by index: the selection of a concatenation is the
      concatenation of the selections. */
  lemma {:induction false} ResolveSelectionAppend(papers: seq<SummarizedPaper>, a: seq<Option<int>>, b: seq<Option<int>>)
    ensures ResolveSelection(papers, a + b) == ResolveSelection(papers, a) + ResolveSelection(papers, b)
    decreases |a|
  {
    if a == [] {
      assert a + b == b;
    } else {
      assert (a + b)[0] == a[0];
      assert (a + b)[1..] == a[1..] + b;
      ResolveSelectionAppend(papers, a[1..], b);
    }
  }

  /** When every submitted index is in range nothing is dropped: the k-th selected paper is
      the paper at the k-th submitted index. */
  lemma {:induction false} ResolveSelectionInRange(papers: seq<SummarizedPaper>, indices: seq<Option<int>>)
    requires forall k :: 0 <= k < |indices| ==> indices[k].Some? && 0 <= indices[k].value < |papers|
    ensures |ResolveSelection(papers, indices)| == |indices|
    ensures forall k :: 0 <= k < |indices| ==> ResolveSelection(papers, indices)[k] == papers[indices[k].value]
    decreases |indices|
  {
    if indices != [] {
      ResolveSelectionInRange(papers, indices[1..]);
      var rest := ResolveSelection(papers, indices[1..]);
      assert ResolveSelection(papers, indices) == [papers[indices[0].value]] + rest;
      forall k | 1 <= k < |indices|
        ensures ResolveSelection(papers, indices)[k] == papers[indices[k].value]
      {
        assert indices[1..][k - 1] == indices[k];
      }
    }
  }

  /** `prevState.searchTopic || "Selected Papers"`. */
  function TopicOrDefault(searchTopic: Option<string>): (topic: string)
    ensures searchTopic.Some? && searchTopic.value != "" ==> topic == searchTopic.value
    ensures searchTopic.None? || searchTopic.value == "" ==> topic == DefaultTopic
  {
    if searchTopic.Some? && searchTopic.value != "" then searchTopic.value else DefaultTopic
  }

  /** `CompareSchema.safeParse({topic, papers})`. Every resolved paper already has the
      schema's shape, so only the `min(2)` rule can fail. */
  function ValidateCompare(topic: string, papers: seq<SummarizedPaper>): (v: Validation<seq<SummarizedPaper>>)
    ensures v.Valid? <==> |papers| >= 2
    ensures v.Valid? ==> v.data == papers
    ensures v.Invalid? ==> v.fieldErrors == map["papers" := [SelectAtLeastTwo]]
  {
    if |papers| < 2 then Invalid(map["papers" := [SelectAtLeastTwo]]) else Valid(papers)
  }

  /** The comparison request: the topic and the selected papers without their summaries. */
  function ComparisonInput(topic: string, papers: seq<SummarizedPaper>): (input: ComparePapersInput)
    ensures input.topic == topic
    ensures |input.papers| == |papers|
    ensures forall k :: 0 <= k < |papers| ==> input.papers[k] == StripSummary(papers[k])
  {
    ComparePapersInput(topic, seq(|papers|, k requires 0 <= k < |papers| => StripSummary(papers[k])))
  }

  /** The previous state holds a non-empty paper list. */
  predicate HasPapers(state: SearchState) {
    state.papers.Some? && state.papers.value != []
  }

  /** The papers a compare submission selects from the previous state. */
  function Selection(prevState: Option<SearchState>, selectedPapers: seq<Option<int>>): seq<SummarizedPaper> {
    ResolveSelection(Prior(prevState).papers.GetOr([]), selectedPapers)
  }

  /** The request a compare submission sends when it gets that far. */
  function CompareRequest(prevState: Option<SearchState>, selectedPapers: seq<Option<int>>): ComparePapersInput {
    ComparisonInput(TopicOrDefault(Prior(prevState).searchTopic), Selection(prevState, selectedPapers))
  }

  /** `comparePapersAction(prevState, formData)`. */
  function ComparePapersAction(prevState: Option<SearchState>, selectedPapers: seq<Option<int>>, compare: ComparePapers): (r: SearchState)
    // a compare never changes the paper list or the search topic
    ensures r.papers == Prior(prevState).papers && r.searchTopic == Prior(prevState).searchTopic
    // nothing to compare: only the message changes
    ensures !HasPapers(Prior(prevState)) ==>
      r == Prior(prevState).(message := Some(NoPapersToCompare))
    // fewer than two resolved papers: the schema's error, under `papers`
    ensures HasPapers(Prior(prevState)) && |Selection(prevState, selectedPapers)| < 2 ==>
      r == Prior(prevState).(message := Some(InvalidComparison), errors := map["papers" := [SelectAtLeastTwo]])
    // the call succeeded: the new comparison, errors cleared
    ensures (HasPapers(Prior(prevState)) && |Selection(prevState, selectedPapers)| >= 2
             && compare(CompareRequest(prevState, selectedPapers)).Success?) ==>
      r == Prior(prevState).(message := Some(ComparisonComplete), errors := map[],
                             comparison := Some(compare(CompareRequest(prevState, selectedPapers)).value))
    // the call failed: everything kept except message and errors
    ensures (HasPapers(Prior(prevState)) && |Selection(prevState, selectedPapers)| >= 2
             && compare(CompareRequest(prevState, selectedPapers)).Failure?) ==>
      r == Prior(prevState).(message := Some(CompareFailed), errors := map[])
  {
    var prior := Prior(prevState);
    if prior.papers.None? || |prior.papers.value| == 0 then
      prior.(message := Some(NoPapersToCompare))
    else
      var selected := ResolveSelection(prior.papers.value, selectedPapers);
      var topic := TopicOrDefault(prior.searchTopic);
      match ValidateCompare(topic, selected)
      case Invalid(fieldErrors) =>
        prior.(errors := fieldErrors, message := Some(InvalidComparison))
      case Valid(papersToCompare) =>
        if |selected| < 2 then
          // the explicit count check after validation
          prior.(message := Some(SelectAtLeastTwo), errors := map["papers" := [SelectAtLeastTwo]])
        else
          match compare(ComparisonInput(topic, papersToCompare))
          case Success(comparison) =>
            prior.(message := Some(ComparisonComplete), comparison := Some(comparison), errors := map[])
          case Failure =>
            prior.(message := Some(CompareFailed), errors := map[])
  }

  /** Without a paper list, or with fewer than two resolved papers, the comparison
      collaborator is never consulted. */
  lemma CompareRejectionSkipsCollaborator(prevState: Option<SearchState>, selectedPapers: seq<Option<int>>,
                                          compare1: ComparePapers, compare2: ComparePapers)
    requires !HasPapers(Prior(prevState)) || |Selection(prevState, selectedPapers)| < 2
    ensures ComparePapersAction(prevState, selectedPapers, compare1) == ComparePapersAction(prevState, selectedPapers, compare2)
  {
  }

  /** Otherwise the collaborator is consulted once, on `CompareRequest`: two collaborators that
      answer that request alike give the same state. */
  lemma CompareSendsRequestOnly(prevState: Option<SearchState>, selectedPapers: seq<Option<int>>,
                                compare1: ComparePapers, compare2: ComparePapers)
    requires compare1(CompareRequest(prevState, selectedPapers)) == compare2(CompareRequest(prevState, selectedPapers))
    ensures ComparePapersAction(prevState, selectedPapers, compare1) == ComparePapersAction(prevState, selectedPapers, compare2)
  {
  }

  /** What the comparison collaborator receives: the focus topic, and at least two papers,
      each one a paper of the previous list with its summary stripped. */
  lemma CompareRequestShape(prevState: Option<SearchState>, selectedPapers: seq<Option<int>>)
    requires HasPapers(Prior(prevState)) && |Selection(prevState, selectedPapers)| >= 2
    ensures var request := CompareRequest(prevState, selectedPapers);
      && request.topic == TopicOrDefault(Prior(prevState).searchTopic)
      && |request.papers| >= 2
      && forall k :: 0 <= k < |request.papers| ==>
           exists j :: 0 <= j < |selectedPapers| && selectedPapers[j].Some?
             && 0 <= selectedPapers[j].value < |Prior(prevState).papers.value|
             && request.papers[k] == StripSummary(Prior(prevState).papers.value[selectedPapers[j].value])
  {
    var request := CompareRequest(prevState, selectedPapers);
    var papers := Prior(prevState).papers.value;
    var selected := ResolveSelection(papers, selectedPapers);
    assert Selection(prevState, selectedPapers) == selected;
    forall k | 0 <= k < |request.papers|
      ensures exists j :: 0 <= j < |selectedPapers| && selectedPapers[j].Some?
                          && 0 <= selectedPapers[j].value < |papers|
                          && request.papers[k] == StripSummary(papers[selectedPapers[j].value])
    {
      var j := ResolveSelectionSources(papers, selectedPapers, k);
      assert request.papers[k] == StripSummary(selected[k]);
    }
  }

  /** The explicit `selectedPapers.length < 2` branch is dead: the schema's `min(2)` has
      already rejected every such selection, so its message never comes out. */
  lemma ExplicitCountCheckUnreachable(prevState: Option<SearchState>, selectedPapers: seq<Option<int>>, compare: ComparePapers)
    ensures ComparePapersAction(prevState, selectedPapers, compare).message != Some(SelectAtLeastTwo)
  {
  }
}
