/**
  The paper records a NASA ADS literature search yields, as the two scripts
  that read them see them. The search itself is not part of this model: the
  scripts receive its result as a sequence of papers.
 */
module AdsPapers {
  import opened Json
  import opened Strings

  /**
    One search result: the fields ADS returned (`paper._raw`), the paper's
    identifiers (`paper.identifier`) and its citation count (`paper.citation_count`).
   */
  datatype Paper = Paper(raw: map<string, Value>, identifier: seq<string>, citationCount: Value)

  /** The substring that marks an arXiv identifier. */
  const ARXIV_TAG: string := "arXiv:"

  /** `'arXiv:' in identifier`. */
  predicate IsArxiv(identifier: string) {
    Contains(identifier, ARXIV_TAG)
  }
}
