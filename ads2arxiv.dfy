/**
  `get_arxiv_ids` (ads2arxiv.py): the arXiv identifiers of the papers a search
  returns, with a parallel list holding the citation count of the paper each
  identifier belongs to.
 */
module Ads2Arxiv {
  import opened Json
  import opened AdsPapers

  /** The identifiers that contain `arXiv:`, in their order. */
  function ArxivIds(ids: seq<string>): (r: seq<string>)
    ensures |r| <= |ids|
  {
    if ids == [] then []
    else ArxivIds(ids[..|ids| - 1]) + (if IsArxiv(ids[|ids| - 1]) then [ids[|ids| - 1]] else [])
  }

  /** `n` copies of `v`. */
  function Repeat(v: Value, n: nat): (r: seq<Value>)
    ensures |r| == n && forall i :: 0 <= i < n ==> r[i] == v
  {
    seq(n, _ => v)
  }

  /** The identifiers `get_arxiv_ids` returns: paper after paper, each paper's arXiv identifiers in order. */
  function SelectedIds(papers: seq<Paper>): seq<string> {
    if papers == [] then []
    else SelectedIds(papers[..|papers| - 1]) + ArxivIds(papers[|papers| - 1].identifier)
  }

  /** The citation counts `get_arxiv_ids` returns: a paper's count once per arXiv identifier of it. */
  function SelectedCitations(papers: seq<Paper>): seq<Value> {
    if papers == [] then []
    else
      var p := papers[|papers| - 1];
      SelectedCitations(papers[..|papers| - 1]) + Repeat(p.citationCount, |ArxivIds(p.identifier)|)
  }

  /** `get_arxiv_ids(ads_query)` once the search result `papers` is at hand. */
  method GetArxivIds(papers: seq<Paper>) returns (ids: seq<string>, citations: seq<Value>)
    ensures ids == SelectedIds(papers)
    ensures citations == SelectedCitations(papers)
  {
    ids, citations := [], [];
    for i := 0 to |papers|
      invariant ids == SelectedIds(papers[..i])
      invariant citations == SelectedCitations(papers[..i])
    {
      var paper := papers[i];
      assert papers[..i + 1][..i] == papers[..i];
      for j := 0 to |paper.identifier|
        invariant ids == SelectedIds(papers[..i]) + ArxivIds(paper.identifier[..j])
        invariant citations == SelectedCitations(papers[..i]) + Repeat(paper.citationCount, |ArxivIds(paper.identifier[..j])|)
      {
        var identifier := paper.identifier[j];
        assert paper.identifier[..j + 1][..j] == paper.identifier[..j];
        if IsArxiv(identifier) {
          ids := ids + [identifier];
          citations := citations + [paper.citationCount];
        }
      }
      assert paper.identifier[..|paper.identifier|] == paper.identifier;
    }
    assert papers[..|papers|] == papers;
  }

  /** The identifiers kept are exactly those that contain `arXiv:`. */
  lemma {:induction false} ArxivIdsMembers(ids: seq<string>, x: string)
    ensures x in ArxivIds(ids) <==> x in ids && IsArxiv(x)
  {
    if ids != [] {
      ArxivIdsMembers(ids[..|ids| - 1], x);
      assert ids == ids[..|ids| - 1] + [ids[|ids| - 1]];
    }
  }

  /** Within a paper, identifiers keep their order: filtering distributes over concatenation. */
  lemma {:induction false} ArxivIdsAppend(a: seq<string>, b: seq<string>)
    ensures ArxivIds(a + b) == ArxivIds(a) + ArxivIds(b)
    decreases |b|
  {
    if b == [] {
      assert a + b == a;
    } else {
      var b', x := b[..|b| - 1], b[|b| - 1];
      var ab := a + b;
      assert ab[..|ab| - 1] == a + b' && ab[|ab| - 1] == x;
      ArxivIdsAppend(a, b');
    }
  }

  /** No identifier of a paper contains `arXiv:` exactly when the paper contributes nothing. */
  lemma ArxivIdsEmpty(ids: seq<string>)
    ensures ArxivIds(ids) == [] <==> forall i :: 0 <= i < |ids| ==> !IsArxiv(ids[i])
  {
    if ArxivIds(ids) != [] {
      var x := ArxivIds(ids)[0];
      ArxivIdsMembers(ids, x);
    } else {
      forall i | 0 <= i < |ids| ensures !IsArxiv(ids[i]) {
        ArxivIdsMembers(ids, ids[i]);
      }
    }
  }

  /** Selection distributes over concatenation of the search result: output order follows paper order. */
  lemma {:induction false} SelectedAppend(a: seq<Paper>, b: seq<Paper>)
    ensures SelectedIds(a + b) == SelectedIds(a) + SelectedIds(b)
    ensures SelectedCitations(a + b) == SelectedCitations(a) + SelectedCitations(b)
    decreases |b|
  {
    if b == [] {
      assert a + b == a;
    } else {
      var b', p := b[..|b| - 1], b[|b| - 1];
      var ab := a + b;
      assert ab[..|ab| - 1] == a + b' && ab[|ab| - 1] == p;
      SelectedAppend(a, b');
      calc {
        SelectedIds(ab);
        SelectedIds(a + b') + ArxivIds(p.identifier);
        SelectedIds(a) + (SelectedIds(b') + ArxivIds(p.identifier));
      }
      calc {
        SelectedCitations(ab);
        SelectedCitations(a + b') + Repeat(p.citationCount, |ArxivIds(p.identifier)|);
        SelectedCitations(a) + (SelectedCitations(b') + Repeat(p.citationCount, |ArxivIds(p.identifier)|));
      }
    }
  }

  /** One paper contributes its arXiv identifiers, each with the paper's citation count. */
  lemma OnePaper(p: Paper)
    ensures SelectedIds([p]) == ArxivIds(p.identifier)
    ensures SelectedCitations([p]) == Repeat(p.citationCount, |ArxivIds(p.identifier)|)
  {
    assert [p][..0] == [];
  }

  /**
    The two lists have the same length, every identifier contains `arXiv:`,
    and the i-th citation count belongs to a paper that owns the i-th identifier.
   */
  lemma {:induction false} SelectedParallel(papers: seq<Paper>)
    ensures |SelectedIds(papers)| == |SelectedCitations(papers)|
    ensures forall i :: 0 <= i < |SelectedIds(papers)| ==> IsArxiv(SelectedIds(papers)[i])
    ensures forall i :: 0 <= i < |SelectedIds(papers)| ==>
      exists k :: 0 <= k < |papers| && SelectedIds(papers)[i] in papers[k].identifier &&
        SelectedCitations(papers)[i] == papers[k].citationCount
  {
    if papers != [] {
      var init := papers[..|papers| - 1];
      var p := papers[|papers| - 1];
      SelectedParallel(init);
      var ids, cits := SelectedIds(papers), SelectedCitations(papers);
      var n := |SelectedIds(init)|;
      forall i | 0 <= i < |ids|
        ensures IsArxiv(ids[i])
        ensures exists k :: 0 <= k < |papers| && ids[i] in papers[k].identifier && cits[i] == papers[k].citationCount
      {
        if i < n {
          assert ids[i] == SelectedIds(init)[i] && cits[i] == SelectedCitations(init)[i];
          var k :| 0 <= k < |init| && ids[i] in init[k].identifier && cits[i] == init[k].citationCount;
          assert init[k] == papers[k];
        } else {
          var x := ArxivIds(p.identifier)[i - n];
          assert ids[i] == x && cits[i] == p.citationCount;
          ArxivIdsMembers(p.identifier, x);
          assert papers[|papers| - 1] == p;
        }
      }
    }
  }
}
