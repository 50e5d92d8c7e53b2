/** The paper record and the retrieval service, which is still a stub returning two
    fixed sample papers. */
module Arxiv {

  /** A paper found on arXiv. The author list is in citation order. */
  datatype ArxivPaper = ArxivPaper(
    title: string,
    abstractText: string,
    url: string,
    authors: seq<string>,
    published: string)

  /** `searchArxiv(topic)`: two sample papers, in this order, whatever the topic. */
  function SearchArxiv(topic: string): (papers: seq<ArxivPaper>)
    ensures |papers| == 2
    ensures papers[0].title == "Sample Paper 1" && papers[1].title == "Sample Paper 2"
    ensures papers[0].url == "http://example.com/paper1" && papers[1].url == "http://example.com/paper2"
    ensures papers[0].url != papers[1].url
    ensures papers[0].authors == ["John Doe", "Jane Smith"]
    ensures papers[1].authors == ["Alice Johnson", "Bob Williams"]
  {
    [
      ArxivPaper(
        "Sample Paper 1",
        "This is a sample abstract for paper 1.",
        "http://example.com/paper1",
        ["John Doe", "Jane Smith"],
        "2024-01-01"),
      ArxivPaper(
        "Sample Paper 2",
        "This is a sample abstract for paper 2.",
        "http://example.com/paper2",
        ["Alice Johnson", "Bob Williams"],
        "2024-02-15")
    ]
  }

  /** The topic is not consulted: any two topics retrieve the same list. */
  lemma SearchArxivIgnoresTopic(topic1: string, topic2: string)
    ensures SearchArxiv(topic1) == SearchArxiv(topic2)
  {
  }
}
