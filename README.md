# ScholarAI orchestration core, modelled in Dafny

ScholarAI is a web application for research on arXiv. A user submits a topic. The server
retrieves papers for it and has a language model summarise each one. The user ticks two or
more of the papers and asks for a comparative analysis. The page then turns the current view
state into a downloadable Markdown report. This project models the deterministic part of that
pipeline and proves properties of it:

- `Arxiv` (`arxiv.dfy`): the paper record and the retrieval service, which is still a stub that
  returns two fixed sample papers whatever the topic. The TypeScript field `abstract` is called
  `abstractText` here, because `abstract` is a Dafny keyword.
- `FindRelevantPapers` (`find_relevant_papers.dfy`): the search-and-summarise flow. It renders
  the per-paper prompt (with the template's author loop), makes one model call per paper and
  attaches the summary. Results keep retrieval order, and one failure fails the whole batch.
- `Actions` (`actions.dfy`): the two server actions, `searchPapersAction` and
  `comparePapersAction`. This covers their schema validation, the resolution of the submitted
  indices, the comparison request, and the view state each branch returns.
- `Page` (`page.dfy`): the client page's own logic:
  - `generateMarkdownReport`, as a method with the source's loop, proved equal to a
    specification function of the view state;
  - the heuristic that chooses which form's state to display;
  - the download file name derived from the topic;
  - the checkbox selection update.
- `Strings` (`strings.dfy`): the JavaScript string built-ins the core relies on. These are
  `join`, the decimal rendering of a count, `length` in UTF-16 code units, ASCII
  `toLowerCase`, and the regular-expression class `\s`.
- `Wrappers` (`wrappers.dfy`): `Option` for fields that may be absent, and `Result` for an
  awaited call that resolves or rejects.
- `Scenarios` (`scenarios.dfy`): end-to-end consequences over the sample retrieval service.

The model represents the inputs as follows:

- The language-model calls and both flows seen from the actions are function-typed parameters:
  `Summarizer`, `FindPapers` and `ComparePapers`. Each returns a `Result`.
- "The collaborator is never consulted" is stated as "any two collaborators give the same
  state". "Only X is sent" is stated as "two collaborators that agree on X give the same
  state".
- A `null` previous state reads as the page's initial state.
- An absent `errors` object is the empty map.
- A missing form field is `None`.
- A submitted index that `Number` cannot turn into an integer is `None`.

## Model

| member | source | states |
|---|---|---|
| Arxiv.SearchArxiv | src/services/arxiv.ts:34-53 | exactly two papers, in order, with the sample titles, URLs and author lists; the two URLs differ |
| Arxiv.SearchArxivIgnoresTopic | src/services/arxiv.ts:34-37 | the stub does not consult the topic: any two topics retrieve the same list |
| FindRelevantPapers.WithSummary | src/ai/flows/find-relevant-papers.ts:66-69 | the spread copies every paper field unchanged and adds the given summary |
| FindRelevantPapers.StripSummary | src/app/actions.ts:120-126 | the comparison input keeps title, abstract, URL, authors and date, and drops the summary |
| FindRelevantPapers.StripWithSummary | src/ai/flows/find-relevant-papers.ts:66-69 | attaching a summary and stripping it again gives back the retrieved paper |
| FindRelevantPapers.WithStrippedSummary | src/app/actions.ts:120-126 | a summarised paper is its stripped paper with its own summary re-attached |
| FindRelevantPapers.EachAuthor | src/ai/flows/find-relevant-papers.ts:50 | the author loop from position i: empty past the end, otherwise starting with author i |
| FindRelevantPapers.SummarizePrompt | src/ai/flows/find-relevant-papers.ts:50 | definition: the template with the paper's own fields interpolated, nothing else; PromptJoinsAuthors gives its text |
| FindRelevantPapers.EachAuthorIsJoin | src/ai/flows/find-relevant-papers.ts:50 | the template's each/unless-@last author loop renders exactly the comma-space join of the authors |
| FindRelevantPapers.PromptJoinsAuthors | src/ai/flows/find-relevant-papers.ts:50 | the prompt is the fixed introduction, then title, abstract, URL, the comma-joined authors and the date, each on its labelled line |
| FindRelevantPapers.SummarizePaper | src/ai/flows/find-relevant-papers.ts:65-68 | succeeds exactly when the model call on that paper's prompt resolves with an output; the summary is that output's summary |
| FindRelevantPapers.SummarizeAll | src/ai/flows/find-relevant-papers.ts:63-71 | succeeds exactly when every paper's summary succeeds; then one result per paper, in order, each the paper with its own summary |
| FindRelevantPapers.SummarizeAllSeesOnlyPaperPrompts | src/ai/flows/find-relevant-papers.ts:63-71 | the batch depends on the model only through its answers to the retrieved papers' prompts |
| FindRelevantPapers.FindRelevantPapersFlow | src/ai/flows/find-relevant-papers.ts:60-74 | succeeds exactly when every retrieved paper is summarised; then the output is the retrieved list, in order, with summaries attached |
| FindRelevantPapers.FlowIgnoresTopic | src/ai/flows/find-relevant-papers.ts:61 | the topic reaches only retrieval, which ignores it, so the flow's outcome is the same for every topic |
| Strings.Join | src/app/page.tsx:54 | empty list gives the empty string; one element gives that element; a non-empty join starts with its first element |
| Strings.JoinSnoc | src/app/page.tsx:54 | appending an author adds exactly one separator and the author at the end |
| Strings.JoinEndsWithLast | src/app/page.tsx:54 | a join has no trailing separator: it ends with its last element |
| Strings.JoinThreeAuthors | src/app/page.tsx:54 | three authors render as "A, B, C" |
| Strings.NatToDecimal | src/app/actions.ts:60 | the count renders as a non-empty run of digits with no leading zero |
| Strings.DecimalRoundTrip | src/app/actions.ts:60 | reading the rendered count back gives the count |
| Strings.DecimalInjective | src/app/actions.ts:60 | distinct counts render differently |
| Strings.Utf16Length | src/app/actions.ts:10 | the length the `min(3)` rule measures lies between the number of characters and twice that |
| Strings.Utf16LengthChar | src/app/actions.ts:10 | one character counts one code unit inside the Basic Multilingual Plane and two outside it |
| Strings.Utf16LengthAppend | src/app/actions.ts:10 | the length of a concatenation is the sum of the lengths; with Utf16LengthChar this fixes the length of every string |
| Actions.AstralTopicLength | src/app/actions.ts:10 | two characters outside the Basic Multilingual Plane pass `min(3)`, one such character does not |
| Strings.LowerChar | src/app/page.tsx:138 | an ASCII capital becomes its own small letter (code point plus 32); every other character is unchanged; whitespace stays whitespace |
| Strings.ToLowerCaseAppend | src/app/page.tsx:138 | lower-casing distributes over concatenation |
| Strings.IsJsWhitespace | src/app/page.tsx:138 | definition: the characters `\s` matches, the ECMAScript white space and line terminator code points |
| Strings.ToLowerCase | src/app/page.tsx:138 | same length, character by character lower-cased |
| Strings.ToLowerCaseIdempotent | src/app/page.tsx:138 | lower-casing twice is lower-casing once |
| Actions.ValidateSearch | src/app/actions.ts:9-11 | accepts exactly a present topic of at least 3 code units, as given; otherwise one `topic` error, the length message or the missing-string message |
| Actions.SearchPapersAction | src/app/actions.ts:35-75 | rejected topic: the `topic` error, old papers, comparison and topic kept; success: found message with the count, the new list, comparison cleared, topic set, no errors; failure: failure message, no errors, old papers and comparison kept, topic set to the new one |
| Actions.SearchRejectionSkipsCollaborator | src/app/actions.ts:43-51 | a rejected topic never reaches the search collaborator |
| Actions.SearchSendsTopicOnly | src/app/actions.ts:53-57 | the accepted topic, verbatim, is the only thing the search collaborator sees |
| Actions.FoundMessage | src/app/actions.ts:60 | the success message starts with "Found " and ends with a closing quote and a period |
| Actions.FoundMessageNamesCount | src/app/actions.ts:60 | the success message determines the number of papers found |
| Actions.FoundMessageAfterFound | src/app/actions.ts:60 | after "Found " the message is the count's digits followed by the rest of the sentence |
| Actions.ResolveIndex | src/app/actions.ts:87-88 | an index keeps a paper exactly when it is a number in range, and then it is the paper at that index |
| Actions.ResolveSelection | src/app/actions.ts:85-88 | never more papers than submitted indices, and every selected paper comes from the previous list |
| Actions.ResolveSelectionSources | src/app/actions.ts:85-88 | each selected paper is the paper at one of the submitted indices, that index being present and in range |
| Actions.ResolveSelectionAppend | src/app/actions.ts:86-88 | indices resolve one by one: the selection of a concatenation is the concatenation of selections |
| Actions.ResolveSelectionInRange | src/app/actions.ts:86-88 | with every index in range nothing is dropped: the k-th paper selected is the paper at the k-th index |
| Actions.TopicOrDefault | src/app/actions.ts:91 | a non-empty search topic is used as is; an absent or empty one becomes "Selected Papers" |
| Actions.ValidateCompare | src/app/actions.ts:13-23 | accepts exactly two or more papers, unchanged; otherwise the `papers` error with the schema's message |
| Actions.ComparisonInput | src/app/actions.ts:115-127 | the request carries the topic and, in order, every selected paper with its summary stripped |
| Actions.ComparePapersAction | src/app/actions.ts:77-148 | papers and topic are never changed; no papers: only the message changes; under two resolved papers: the invalid-request message and the `papers` error; success: the new comparison, errors cleared; failure: failure message, errors cleared, rest kept |
| Actions.CompareRejectionSkipsCollaborator | src/app/actions.ts:81-102 | without papers, or with fewer than two resolved, the comparison collaborator is never consulted |
| Actions.CompareSendsRequestOnly | src/app/actions.ts:112-132 | the comparison collaborator is consulted only on the request built from the topic and the selection |
| Actions.CompareRequestShape | src/app/actions.ts:112-127 | the request has the focus topic and at least two papers, each the paper at one of the submitted indices of the previous list, without its summary |
| Actions.HasPapers | src/app/actions.ts:81 | definition: the previous state holds a paper list that is not empty |
| Actions.ExplicitCountCheckUnreachable | src/app/actions.ts:104-110 | the explicit under-two branch is dead: its message never comes out |
| Page.Report | src/app/page.tsx:40-87 | definition: the report text as a function of the view state: title, analysis part, one entry per paper in order, extracted sections |
| Page.GenerateMarkdownReport | src/app/page.tsx:40-87 | the text built piece by piece, one loop turn per paper, equals the report specification `Report` of the state |
| Page.AppendEntry | src/app/page.tsx:53-61 | one loop turn appends exactly that paper's entry |
| Page.AppendExtractedSections | src/app/page.tsx:72-82 | appends the extracted-sections heading and each section found, in the fixed order |
| Page.ReportIsReproducible | src/app/page.tsx:40-87 | generating the report twice from the same state gives the same text |
| Page.ReportStartsWithTitle | src/app/page.tsx:41 | the report opens with the title line naming the topic, or "Selected Papers" |
| Page.ReportAnalysisHeadings | src/app/page.tsx:43-49 | after the title: the analysis verbatim between the two headings when there is one, otherwise the "Searched Papers" heading |
| Page.EntriesPrefix | src/app/page.tsx:52-62 | the entries of the first papers are a prefix of the entries of all of them |
| Page.ReportEntryInOrder | src/app/page.tsx:52-62 | the report holds the title, the analysis part and the entries of papers 1 to i+1 in order |
| Page.EntryHeadingAndRule | src/app/page.tsx:53-61 | each entry opens with its 1-based numbered heading and closes with a rule |
| Page.EntrySummaryBlock | src/app/page.tsx:58-60 | the summary block appears exactly when the summary is non-empty, just before the rule |
| Page.ReportExtractedHeading | src/app/page.tsx:66-72 | with an analysis and no sections found, the report ends with the extracted-sections heading; without an analysis it is exactly the title, the "Searched Papers" heading and the entries |
| Page.CompareActionHappened | src/app/page.tsx:108 | definition: the compare state has a non-empty message that differs from the search state's |
| Page.CombinedState | src/app/page.tsx:106-110 | shows one of the two states; the compare state exactly when it has a message that differs from the search state's |
| Page.ActionMessagesDisjoint | src/app/page.tsx:108 | every message a compare sets is non-empty and differs from every message a search sets |
| Page.CompareStateAlwaysShown | src/app/page.tsx:106-110 | once the compare form has produced a state, it is shown in preference to any search state |
| Page.SearchShownBeforeAnyCompare | src/app/page.tsx:101-110 | while the compare state is the initial one, the search state is shown |
| Page.SkipWhitespace | src/app/page.tsx:138 | removes exactly the leading whitespace: a suffix, all-whitespace before it, a non-whitespace start |
| Page.HyphenateWhitespace | src/app/page.tsx:138 | no whitespace left, no longer than the input, and empty exactly when the input is |
| Page.HyphenateRun | src/app/page.tsx:138 | a maximal run of whitespace becomes exactly one hyphen; with HyphenateAfterWord this fixes the result on every input |
| Page.HyphenateAddsNoUpper | src/app/page.tsx:138 | the replacement adds only hyphens: no capital letter appears |
| Page.HyphenateKeepsWhitespaceFree | src/app/page.tsx:138 | a string without whitespace is unchanged |
| Page.HyphenateAfterWord | src/app/page.tsx:138 | a leading whitespace-free word passes through unchanged |
| Page.HyphenateSpacedWords | src/app/page.tsx:138 | words separated by single spaces come out separated by single hyphens |
| Page.TopicSlug | src/app/page.tsx:138 | empty exactly for the empty topic, never longer, no whitespace and no capital letters |
| Page.TopicSlugWordThenRun | src/app/page.tsx:138 | the slug is the lower-cased topic with each maximal whitespace run replaced by one hyphen: a word, then a run, give the lower-cased word, one hyphen and the slug of the rest |
| Page.TopicSlugIdempotent | src/app/page.tsx:138 | slugging a slug changes nothing |
| Page.DownloadFilename | src/app/page.tsx:138-139 | ends in ".md"; "research-report.md" for an absent or empty topic, the topic's slug otherwise; no whitespace |
| Page.WhitespaceTopicFilename | src/app/page.tsx:138-139 | a whitespace-only topic gives "-.md", not the default name |
| Page.DiffusionModelsFilename | src/app/page.tsx:138-139 | "Diffusion Models" gives "diffusion-models.md" |
| Page.HandleCheckboxChange | src/app/page.tsx:117-127 | the index is selected exactly when the box reports `true`; every other index keeps its membership |
| Page.CheckboxLastChangeWins | src/app/page.tsx:117-127 | two changes to the same box act as the last one |
| Page.CheckboxChangesCommute | src/app/page.tsx:117-127 | changes to different boxes commute |
| Scenarios.DiffusionModelsSearch | src/app/actions.ts:53-64 | a search through the flow, with a model that always answers, shows the two sample papers in order, each with the model's summary of its own prompt, and "Found 2 papers ..." |
| Scenarios.CompareBothPapers | src/app/actions.ts:112-139 | comparing both found papers asks about exactly the two sample papers under the searched topic, and on success shows the comparison and keeps the list |
| Scenarios.CompareOnePaper | src/app/actions.ts:90-102 | selecting one paper is refused with the schema's message under `papers`, and the list is kept |
| Scenarios.CompareDropsUnresolvable | src/app/actions.ts:85-102 | out-of-range and unreadable indices are dropped before counting, so one valid index is refused |
| Scenarios.ComparesFromInitialState | src/app/actions.ts:81-83 | a compare from the initial state finds no papers, and a compare from the state it leaves finds none either |
| Scenarios.EmptySummaryKept | src/ai/flows/find-relevant-papers.ts:66-69 | an empty model summary is kept as is, and the report then omits the summary block |
| Scenarios.ThreeAuthorsRendered | src/app/page.tsx:54 | three authors appear as "A, B, C" both in the prompt and in the report |

## Left out

- The model calls themselves are not modelled. The call behind find-relevant-papers.ts's own
  `summarizePaper` prompt (find-relevant-papers.ts:34-51, awaited at :65) is the `Summarizer`
  parameter; that prompt's template text is modelled as `SummarizePrompt`.
- `comparePapers` (compare-papers.ts) is not part of this model; its outcome is the
  `ComparePapers` parameter. summarize-paper.ts is not used by the core.
- The genkit and zod runtimes are not modelled. Only the rules the schemas enforce here are
  modelled: `min(3)` on the topic, `min(2)` on the papers, and the messages. Schema checks on
  fields that are already well typed cannot fail.
- `Promise.all` concurrency is left out. The summaries are taken in list order, and the
  outcome does not depend on order because each call sees only its own prompt.
- Console logging is left out. It has no effect on any state.
- Parsing the form data (`formData.get`, `getAll`, `Number`) is left out. A topic arrives as
  `Option<string>`, and each index as `Option<int>`.
- The regular-expression section extraction in `generateMarkdownReport` (page.tsx:68-70 and
  the `trim` of each match) is the parameter `extract`. The report's layout around it is
  modelled, but which text the three patterns capture is not.
- React wiring is left out: `useFormState`, `useMemo`, `useState`, the tabs, rendering, and
  `downloadMarkdown` with its DOM calls. The model covers the pure logic these call.
- Strings.ToLowerCase: maps only the ASCII capitals A-Z. JavaScript's `toLowerCase` also
  lower-cases other Unicode letters, so non-ASCII topics may get a different slug.
- Strings.LowerChar: lowers only A-Z. JavaScript's `toLowerCase` also lowers non-ASCII
  capitals such as É or Σ; the model keeps them as they are.
- Page.TopicSlug: inherits the ASCII-only lower-casing from Strings.ToLowerCase.
- Actions.ValidateSearch: the message for a missing `topic` field is zod's default wording
  for a null string in the zod version assumed here; the source does not pin that version.
  The page's own form always sends the field, so only a hand-built request reaches this path.

## Notes on the source

These points are where the code behaves differently from what its comments and surrounding
design suggest. The model follows the code:

- In `comparePapersAction`, the explicit `selectedPapers.length < 2` branch (actions.ts:104-110)
  cannot run. The schema's `min(2)` has already rejected every such selection with
  "Invalid comparison request." (see `Actions.ExplicitCountCheckUnreachable`).
- A failed search does not keep the old search topic. It stores the new topic next to the old
  papers (actions.ts:71).
- The file name falls back to "research-report" for an empty topic as well as an absent one.
  A topic made only of whitespace gives "-.md".
- A summary is whatever string the model returns, and that may be the empty string. The
  report then leaves out the summary block.
- The retrieval stub never fails, so a search fails only when a summary fails.
- The page hands `searchState ?? initialState` to the compare form's state hook
  (page.tsx:103), but that hook reads its initial state only once, when the page mounts. The
  compare action is then always given the compare form's own previous state, which starts
  without papers and never gains any, so a compare ends with "No papers available to
  compare. Please search first." (`Scenarios.ComparesFromInitialState` shows two compares in
  a row from the initial state). The hook wiring itself is not modelled.
- The display heuristic shows the compare state whenever its message differs from the
  search state's. After a compare, a later search therefore stays hidden behind the compare
  state (`Page.CompareStateAlwaysShown`).
