/**
  `query_ads` (query_ads.py): one record per paper of the search result, holding
  the fields ADS returned plus an `arxiv_id` entry, the paper's last identifier
  that contains `arXiv:`, or `None` when it has none.
 */
module QueryAds {
  import opened Wrappers
  import opened Json
  import opened AdsPapers
  import Ads2Arxiv

  /** The key `query_ads` adds to every record. */
  const ARXIV_ID_KEY: string := "arxiv_id"

  /** The last identifier that contains `arXiv:`: the inner loop overwrites the entry at every match. */
  function LastArxivId(ids: seq<string>): Option<string> {
    if ids == [] then None
    else if IsArxiv(ids[|ids| - 1]) then Some(ids[|ids| - 1])
    else LastArxivId(ids[..|ids| - 1])
  }

  /** The value stored under `arxiv_id`: the identifier, or `None`. */
  function ArxivValue(ids: seq<string>): (v: Value)
    ensures v == Null <==> LastArxivId(ids) == None
  {
    match LastArxivId(ids)
    case None => Null
    case Some(id) => Str(id)
  }

  /** The record `query_ads` returns for one paper. */
  function Tagged(p: Paper): (r: map<string, Value>)
    ensures r.Keys == p.raw.Keys + {ARXIV_ID_KEY}
    ensures r[ARXIV_ID_KEY] == ArxivValue(p.identifier)
    ensures forall k :: k in p.raw && k != ARXIV_ID_KEY ==> r[k] == p.raw[k]
  {
    p.raw[ARXIV_ID_KEY := ArxivValue(p.identifier)]
  }

  /** `query_ads(query)` once the search result `papers` is at hand. */
  method QueryAds(papers: seq<Paper>) returns (result: seq<map<string, Value>>)
    ensures |result| == |papers|
    ensures forall i :: 0 <= i < |papers| ==> result[i] == Tagged(papers[i])
  {
    result := [];
    for i := 0 to |papers|
      invariant |result| == i
      invariant forall k :: 0 <= k < i ==> result[k] == Tagged(papers[k])
    {
      var paper := papers[i];
      var record := paper.raw;
      record := record[ARXIV_ID_KEY := Null];
      for j := 0 to |paper.identifier|
        invariant record == paper.raw[ARXIV_ID_KEY := ArxivValue(paper.identifier[..j])]
      {
        var identifier := paper.identifier[j];
        assert paper.identifier[..j + 1][..j] == paper.identifier[..j];
        if IsArxiv(identifier) {
          record := record[ARXIV_ID_KEY := Str(identifier)];
        }
      }
      assert paper.identifier[..|paper.identifier|] == paper.identifier;
      result := result + [record];
    }
  }

  /**
    The entry is `None` exactly when no identifier contains `arXiv:`; otherwise it
    is an identifier that contains `arXiv:` and no later identifier does.
   */
  lemma {:induction false} LastArxivIdSpec(ids: seq<string>)
    ensures LastArxivId(ids) == None <==> forall i :: 0 <= i < |ids| ==> !IsArxiv(ids[i])
    ensures LastArxivId(ids).Some? ==>
      exists j :: 0 <= j < |ids| && ids[j] == LastArxivId(ids).value && IsArxiv(ids[j]) &&
        forall k :: j < k < |ids| ==> !IsArxiv(ids[k])
  {
    if ids != [] {
      var init := ids[..|ids| - 1];
      LastArxivIdSpec(init);
      if IsArxiv(ids[|ids| - 1]) {
        assert ids[|ids| - 1] == LastArxivId(ids).value;
      } else if LastArxivId(init).Some? {
        var j :| 0 <= j < |init| && init[j] == LastArxivId(init).value && IsArxiv(init[j]) &&
          forall k :: j < k < |init| ==> !IsArxiv(init[k]);
        assert ids[j] == init[j];
        forall k | j < k < |ids| ensures !IsArxiv(ids[k]) {
          if k < |init| {
            assert ids[k] == init[k];
          }
        }
      } else {
        forall i | 0 <= i < |ids| ensures !IsArxiv(ids[i]) {
          if i < |init| {
            assert ids[i] == init[i];
          }
        }
      }
    }
  }

  /**
    The identifier `query_ads` records is the last of those `get_arxiv_ids` lists
    for the same paper.
   */
  lemma {:induction false} LastOfArxivIds(ids: seq<string>)
    ensures LastArxivId(ids) ==
      (var found := Ads2Arxiv.ArxivIds(ids); if found == [] then None else Some(found[|found| - 1]))
  {
    if ids != [] {
      LastOfArxivIds(ids[..|ids| - 1]);
    }
  }
}
